/**
  Block headers in memory and how a stretch of the free list is threaded through them.  A header
  has two fields, the next pointer and the size; memory is one map for each, by unit address.
 */
module HeaderMemory {
  import opened FreeList

  const NULL := 0

  datatype Headers = Headers(ptr: map<int, int>, size: map<int, nat>) {
    function SetPtr(p: int, q: int): Headers { this.(ptr := ptr[p := q]) }

    function SetSize(p: int, n: nat): Headers { this.(size := size[p := n]) }

    predicate Has(p: int) { p in ptr && p in size }
  }

  ghost predicate Node(bs: seq<Block>, i: nat, last: int, m: Headers)
    requires i < |bs|
  {
    && m.Has(bs[i].addr)
    && m.size[bs[i].addr] == bs[i].size
    && m.ptr[bs[i].addr] == if i + 1 < |bs| then bs[i + 1].addr else last
  }

  /** The blocks bs are threaded through memory in this order, the last one pointing to address last. */
  ghost predicate Chain(bs: seq<Block>, last: int, m: Headers) {
    forall i :: 0 <= i < |bs| ==> Node(bs, i, last, m)
  }

  /** The ring is threaded through memory as one cycle, freep being its roving pointer. */
  ghost predicate Threaded(r: Ring, freep: int, m: Headers) {
    && r.rover < |r.blocks|
    && freep == r.blocks[r.rover].addr
    && Chain(r.blocks, r.blocks[0].addr, m)
  }

  function First(bs: seq<Block>, last: int): int {
    if bs == [] then last else bs[0].addr
  }

  lemma ChainConcat(s: seq<Block>, t: seq<Block>, last: int, m: Headers)
    ensures Chain(s + t, last, m) <==> Chain(s, First(t, last), m) && Chain(t, last, m)
  {
    if Chain(s + t, last, m) {
      forall i | 0 <= i < |s|
        ensures Node(s, i, First(t, last), m)
      {
        assert Node(s + t, i, last, m);
      }
      forall i | 0 <= i < |t|
        ensures Node(t, i, last, m)
      {
        assert Node(s + t, |s| + i, last, m);
      }
    }
    if Chain(s, First(t, last), m) && Chain(t, last, m) {
      forall i | 0 <= i < |s + t|
        ensures Node(s + t, i, last, m)
      {
        assert if i < |s| then Node(s, i, First(t, last), m) else Node(t, i - |s|, last, m);
      }
    }
  }

  /** Only headers at the touched addresses were written. */
  ghost predicate SameBut(m: Headers, m': Headers, touched: set<int>) {
    forall a :: a !in touched && m.Has(a) ==> m'.Has(a) && m'.ptr[a] == m.ptr[a] && m'.size[a] == m.size[a]
  }

  /** Writes to headers outside a chain leave the chain as it is. */
  lemma ChainFrame(bs: seq<Block>, last: int, m: Headers, m': Headers, touched: set<int>)
    requires Chain(bs, last, m) && SameBut(m, m', touched)
    requires forall i :: 0 <= i < |bs| ==> bs[i].addr !in touched
    ensures Chain(bs, last, m')
  {
    forall i | 0 <= i < |bs|
      ensures Node(bs, i, last, m')
    {
      assert Node(bs, i, last, m);
    }
  }

  /** The header at b threaded in front of the node at q, or joined with it when they touch. */
  function LinkUpper(m: Headers, b: int, q: int): Headers
    requires b in m.size && m.Has(q)
  {
    if b + m.size[b] == q then m.SetSize(b, m.size[b] + m.size[q]).SetPtr(b, m.ptr[q])
    else m.SetPtr(b, q)
  }

  /** The header at b threaded after the node at p, or joined with it when they touch. */
  function LinkLower(m: Headers, b: int, p: int): Headers
    requires m.Has(b) && m.Has(p)
  {
    if p + m.size[p] == b then m.SetSize(p, m.size[p] + m.size[b]).SetPtr(p, m.ptr[b])
    else m.SetPtr(p, b)
  }

  lemma LinkUpperThreads(b: Block, high: seq<Block>, base: int, m: Headers)
    requires Chain(high, base, m) && m.Has(First(high, base))
    requires b.addr in m.size && m.size[b.addr] == b.size && base < b.addr && 1 <= b.size
    requires Separated(high) && forall k :: 0 <= k < |high| ==> b.End() <= high[k].addr
    ensures Chain(JoinUp(b, high), base, LinkUpper(m, b.addr, First(high, base)))
  {
    var m' := LinkUpper(m, b.addr, First(high, base));
    if high != [] && b.End() == high[0].addr {
      assert Node(high, 0, base, m);
      assert high == [high[0]] + high[1..];
      ChainConcat([high[0]], high[1..], base, m);
      ChainFrame(high[1..], base, m, m', {b.addr});
      var joined := Block(b.addr, b.size + high[0].size);
      assert Node([joined], 0, First(high[1..], base), m');
      ChainConcat([joined], high[1..], base, m');
    } else {
      ChainFrame(high, base, m, m', {b.addr});
      assert Node([b], 0, First(high, base), m');
      ChainConcat([b], high, base, m');
    }
  }

  lemma LinkLowerThreads(low: seq<Block>, mid: seq<Block>, x: int, base: int, m: Headers)
    requires |low| >= 1 && |mid| >= 1
    requires Chain(low, x, m) && Chain(mid, base, m)
    requires Separated(low) && Separated(mid) && forall k :: 0 <= k < |low| ==> low[k].addr < mid[0].addr
    ensures m.Has(mid[0].addr) && m.Has(low[|low| - 1].addr)
    ensures Chain(JoinDown(low, mid), base, LinkLower(m, mid[0].addr, low[|low| - 1].addr))
  {
    assert Node(mid, 0, base, m) && Node(low, |low| - 1, x, m);
    var m' := LinkLower(m, mid[0].addr, low[|low| - 1].addr);
    var rest, last := low[..|low| - 1], low[|low| - 1];
    assert low == rest + [last];
    ChainConcat(rest, [last], x, m);
    ChainFrame(rest, last.addr, m, m', {last.addr});
    if last.End() == mid[0].addr {
      var joined := Block(last.addr, last.size + mid[0].size);
      assert mid == [mid[0]] + mid[1..];
      ChainConcat([mid[0]], mid[1..], base, m);
      ChainFrame(mid[1..], base, m, m', {last.addr});
      assert Node([joined], 0, First(mid[1..], base), m');
      ChainConcat([joined], mid[1..], base, m');
      ChainConcat(rest, [joined] + mid[1..], base, m');
      assert rest + [joined] + mid[1..] == rest + ([joined] + mid[1..]);
    } else {
      ChainFrame(mid, base, m, m', {last.addr});
      assert Node([last], 0, mid[0].addr, m');
      ChainConcat([last], mid, base, m');
      ChainConcat(rest, [last] + mid, base, m');
      assert rest + ([last] + mid) == low + mid;
    }
  }

  // ---------------------------------------------------------------- the insertion search

  /** The two exits of the insertion search: b lies between p and q, or p is the last node and b lies beyond an end. */
  predicate StopsAt(p: int, q: int, b: int) {
    (b > p && b < q) || (p >= q && (b > p || b < q))
  }

  /** The search stops at one node of the ring only: the one that precedes the block in address order. */
  lemma StopsOnlyBefore(r: Ring, b: Block, k: nat)
    requires WellFormed(r) && Apart(r, b) && k < |r.blocks|
    ensures 1 <= Slot(r.blocks, b.addr)
    ensures StopsAt(r.blocks[k].addr, r.blocks[Next(k, |r.blocks|)].addr, b.addr) <==> k == Slot(r.blocks, b.addr) - 1
  {
    SlotSplits(r, b);
    var i := Slot(r.blocks, b.addr);
    assert forall j :: 0 <= j < |r.blocks| ==> r.blocks[j].addr != b.addr;
    if k + 1 < |r.blocks| {
      assert r.blocks[k].End() < r.blocks[k + 1].addr;
    }
    if 0 < k {
      assert r.blocks[0].End() < r.blocks[k].addr;
    }
  }

  /** Block b threaded between the nodes below and above it, each neighbour joined when it touches. */
  lemma LinkThreads(low: seq<Block>, b: Block, high: seq<Block>, base: int, m: Headers)
    requires low != [] && low[0].addr == base && Separated(low) && Separated(high)
    requires Chain(low, First(high, base), m) && Chain(high, base, m) && m.Has(First(high, base))
    requires b.addr in m.size && m.size[b.addr] == b.size && 1 <= b.size
    requires forall k :: 0 <= k < |low| ==> low[k].addr < b.addr
    requires forall k :: 0 <= k < |high| ==> b.End() <= high[k].addr
    ensures var p := low[|low| - 1].addr;
            var m1 := LinkUpper(m, b.addr, First(high, base));
            m1.Has(b.addr) && m1.Has(p) && Chain(JoinDown(low, JoinUp(b, high)), base, LinkLower(m1, b.addr, p))
  {
    LinkUpperThreads(b, high, base, m);
    JoinUpIsSeparated(b, high);
    var m1 := LinkUpper(m, b.addr, First(high, base));
    ChainFrame(low, First(high, base), m, m1, {b.addr});
    LinkLowerThreads(low, JoinUp(b, high), First(high, base), base, m1);
  }

  lemma RingSplits(r: Ring, freep: int, i: nat, m: Headers)
    requires Threaded(r, freep, m) && 1 <= i <= |r.blocks|
    ensures var (low, high, base) := (r.blocks[..i], r.blocks[i..], r.blocks[0].addr);
            && Chain(low, First(high, base), m) && Chain(high, base, m) && m.Has(First(high, base))
            && m.Has(low[i - 1].addr) && m.ptr[low[i - 1].addr] == First(high, base)
  {
    var low, high, base := r.blocks[..i], r.blocks[i..], r.blocks[0].addr;
    assert r.blocks == low + high;
    ChainConcat(low, high, base, m);
    assert Node(low, i - 1, First(high, base), m);
    assert Node(r.blocks, 0, base, m);
    assert high != [] ==> Node(high, 0, base, m);
  }

  /** The header writes of simple_free, done at the node before b, thread the list with b put back. */
  lemma ReleaseThreads(r: Ring, freep: int, b: Block, m: Headers)
    requires WellFormed(r) && Apart(r, b) && Threaded(r, freep, m)
    requires b.addr in m.size && m.size[b.addr] == b.size
    ensures 1 <= Slot(r.blocks, b.addr)
    ensures var p := r.blocks[Slot(r.blocks, b.addr) - 1].addr;
            && m.Has(p) && m.Has(m.ptr[p])
            && var m1 := LinkUpper(m, b.addr, m.ptr[p]);
            && m1.Has(b.addr) && m1.Has(p)
            && Threaded(Release(r, b), p, LinkLower(m1, b.addr, p))
  {
    var i := Slot(r.blocks, b.addr);
    SlotSplits(r, b);
    RingSplits(r, freep, i, m);
    LinkThreads(r.blocks[..i], b, r.blocks[i..], r.blocks[0].addr, m);
    JoinDownHead(r.blocks[..i], JoinUp(b, r.blocks[i..]));
  }

  lemma JoinDownHead(low: seq<Block>, mid: seq<Block>)
    requires |low| >= 1 && |mid| >= 1
    ensures |low| <= |JoinDown(low, mid)| && JoinDown(low, mid)[0].addr == low[0].addr
    ensures JoinDown(low, mid)[|low| - 1].addr == low[|low| - 1].addr
  {
  }

  // ---------------------------------------------------------------- carving

  /** The header writes that hand out n units of the node at p, whose predecessor is prev. */
  function CarveHeaders(m: Headers, prev: int, p: int, n: nat): Headers
    requires m.Has(prev) && m.Has(p) && n <= m.size[p]
  {
    if m.size[p] == n then m.SetPtr(prev, m.ptr[p])
    else m.SetSize(p, m.size[p] - n).SetSize(p + (m.size[p] - n), n)
  }

  /** Taking the node b out of the chain, or its tail end off it. */
  lemma CarveChains(low: seq<Block>, last: Block, b: Block, high: seq<Block>, n: nat, base: int, m: Headers)
    requires Chain(low + [last], b.addr, m) && Chain([b] + high, base, m)
    requires forall k :: 0 <= k < |low| ==> low[k].addr < last.addr
    requires last.addr < b.addr && forall k :: 0 <= k < |high| ==> b.End() < high[k].addr
    requires 1 <= n <= b.size
    ensures m.Has(last.addr) && m.Has(b.addr) && m.size[b.addr] == b.size
    ensures var m' := CarveHeaders(m, last.addr, b.addr, n);
            && Chain((low + [last]) + (if b.size == n then high else [Block(b.addr, b.size - n)] + high), base, m')
            && b.End() - n in m'.size && m'.size[b.End() - n] == n
  {
    ChainConcat(low, [last], b.addr, m);
    ChainConcat([b], high, base, m);
    assert Node([last], 0, b.addr, m) && Node([b], 0, First(high, base), m);
    var m' := CarveHeaders(m, last.addr, b.addr, n);
    var touched := {last.addr, b.addr, b.End() - n};
    ChainFrame(low, last.addr, m, m', touched);
    ChainFrame(high, base, m, m', touched);
    if b.size == n {
      assert Node([last], 0, First(high, base), m');
      ChainConcat(low, [last], First(high, base), m');
      ChainConcat(low + [last], high, base, m');
    } else {
      var b' := Block(b.addr, b.size - n);
      assert Node([last], 0, b.addr, m') && Node([b'], 0, First(high, base), m');
      ChainConcat(low, [last], b.addr, m');
      ChainConcat([b'], high, base, m');
      ChainConcat(low + [last], [b'] + high, base, m');
    }
  }

  /** The list around node j, and what Carve makes of it. */
  lemma CarvePieces(r: Ring, j: nat, n: nat)
    requires 1 <= j < |r.blocks| && n <= r.blocks[j].size
    ensures var bs, b := r.blocks, r.blocks[j];
            var low, high := bs[..j - 1] + [bs[j - 1]], bs[j + 1..];
            && bs == low + ([b] + high)
            && Carve(r, j, n).blocks == low + if b.size == n then high else [Block(b.addr, b.size - n)] + high
  {
    var bs, b := r.blocks, r.blocks[j];
    assert bs[..j - 1] + [bs[j - 1]] == bs[..j];
    assert bs[..j] + ([b] + bs[j + 1..]) == bs;
  }

  lemma CarveThreads(r: Ring, freep: int, j: nat, n: nat, m: Headers)
    requires WellFormed(r) && Threaded(r, freep, m) && 1 <= j < |r.blocks| && 1 <= n <= r.blocks[j].size
    ensures var (prev, p) := (r.blocks[j - 1].addr, r.blocks[j].addr);
            && m.Has(prev) && m.Has(p) && m.size[p] == r.blocks[j].size
            && Threaded(Carve(r, j, n), prev, CarveHeaders(m, prev, p, n))
            && Carving(r, j, n).addr in CarveHeaders(m, prev, p, n).size
            && CarveHeaders(m, prev, p, n).size[Carving(r, j, n).addr] == n
  {
    var bs, base := r.blocks, r.blocks[0].addr;
    CarvePieces(r, j, n);
    CarveOrder(bs, j, bs[..j - 1], bs[j + 1..]);
    ChainConcat(bs[..j - 1] + [bs[j - 1]], [bs[j]] + bs[j + 1..], base, m);
    CarveChains(bs[..j - 1], bs[j - 1], bs[j], bs[j + 1..], n, base, m);
    CarveHead(r, j, n);
  }

  lemma CarveHead(r: Ring, j: nat, n: nat)
    requires 1 <= j < |r.blocks| && n <= r.blocks[j].size
    ensures var c := Carve(r, j, n);
            c.rover < |c.blocks|
            && c.blocks[0].addr == r.blocks[0].addr
            && c.blocks[c.rover].addr == r.blocks[j - 1].addr
  {
  }

  lemma CarveOrder(bs: seq<Block>, j: nat, low: seq<Block>, high: seq<Block>)
    requires Separated(bs) && 1 <= j < |bs| && low == bs[..j - 1] && high == bs[j + 1..]
    ensures forall k :: 0 <= k < |low| ==> low[k].addr < bs[j - 1].addr
    ensures bs[j - 1].addr < bs[j].addr && forall k :: 0 <= k < |high| ==> bs[j].End() < high[k].addr
  {
    assert forall k :: 0 <= k < |low| ==> low[k] == bs[k] && low[k].addr <= low[k].End();
    assert bs[j - 1].End() < bs[j].addr;
  }
}
