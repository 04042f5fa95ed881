/**
  The allocator's free list as a value: the blocks on the list in address order, starting with the
  zero-size marker `base`, and the index of the node the roving pointer designates.  Addresses
  count header-sized units.
 */
module FreeList {
  import opened Options

  datatype Block = Block(addr: int, size: nat) {
    function End(): int { addr + size }

    predicate Has(u: int) { addr <= u < End() }
  }

  datatype Ring = Ring(blocks: seq<Block>, rover: nat)

  /** One address-ordered cycle through the marker, no two blocks overlapping or touching. */
  ghost predicate WellFormed(r: Ring) {
    && r.rover < |r.blocks|
    && r.blocks[0].size == 0
    && (forall i :: 1 <= i < |r.blocks| ==> 1 <= r.blocks[i].size)
    && Separated(r.blocks)
  }

  ghost predicate Separated(bs: seq<Block>) {
    forall i, j :: 0 <= i < j < |bs| ==> bs[i].End() < bs[j].addr
  }

  ghost predicate Covers(bs: seq<Block>, u: int) {
    exists i :: 0 <= i < |bs| && bs[i].Has(u)
  }

  lemma CoversConcat(s: seq<Block>, t: seq<Block>, u: int)
    ensures Covers(s + t, u) <==> Covers(s, u) || Covers(t, u)
  {
    if Covers(s + t, u) {
      var i :| 0 <= i < |s + t| && (s + t)[i].Has(u);
      assert if i < |s| then s[i].Has(u) else t[i - |s|].Has(u);
    }
    if Covers(s, u) {
      var i :| 0 <= i < |s| && s[i].Has(u);
      assert (s + t)[i].Has(u);
    }
    if Covers(t, u) {
      var i :| 0 <= i < |t| && t[i].Has(u);
      assert (s + t)[|s| + i].Has(u);
    }
  }

  lemma CoversSplice(s: seq<Block>, m: Block, t: seq<Block>, u: int)
    ensures Covers(s + [m] + t, u) <==> Covers(s, u) || m.Has(u) || Covers(t, u)
  {
    CoversConcat(s + [m], t, u);
    CoversConcat(s, [m], u);
    assert m.Has(u) ==> [m][0].Has(u);
  }

  lemma SeparatedSplice(s: seq<Block>, m: Block, t: seq<Block>)
    requires Separated(s) && Separated(t)
    requires forall k :: 0 <= k < |s| ==> s[k].End() < m.addr
    requires forall k :: 0 <= k < |t| ==> m.End() < t[k].addr
    ensures Separated(s + [m] + t)
  {
    var x := s + [m] + t;
    forall i, j | 0 <= i < j < |x|
      ensures x[i].End() < x[j].addr
    {
      if i < |s| < j {
        assert s[i].End() < m.addr <= m.End() < t[j - |s| - 1].addr;
      }
    }
  }

  lemma SeparatedSlice(s: seq<Block>, i: nat, j: nat)
    requires Separated(s) && i <= j <= |s|
    ensures Separated(s[i..j])
  {
    forall a, b | 0 <= a < b < |s[i..j]|
      ensures s[i..j][a].End() < s[i..j][b].addr
    {
      assert s[i + a].End() < s[i + b].addr;
    }
  }

  /** The index after k on a ring of n nodes. */
  function Next(k: nat, n: nat): (i: nat)
    requires k < n
  {
    if k + 1 == n then 0 else k + 1
  }

  /** The index d steps after k on a ring of n nodes. */
  function Ahead(k: nat, d: nat, n: nat): (i: nat)
    requires k < n && d <= n
    ensures i < n
  {
    if k + d < n then k + d else k + d - n
  }

  /** How many steps lead from k to i, where coming back to k itself takes a full lap. */
  function Dist(k: nat, i: nat, n: nat): (d: nat)
    requires k < n && i < n
    ensures 1 <= d <= n && Ahead(k, d, n) == i
  {
    if k < i then i - k else i + n - k
  }

  // ---------------------------------------------------------------- next fit

  /** No node d or more steps ahead of the rover and nearer than distance e holds n units. */
  ghost predicate NoneBetween(r: Ring, n: nat, d: nat, e: nat)
    requires r.rover < |r.blocks|
  {
    forall k :: 0 <= k < |r.blocks| && d <= Dist(r.rover, k, |r.blocks|) < e ==> r.blocks[k].size < n
  }

  /** The first node at distance d or more ahead of the rover that holds n units. */
  function Search(r: Ring, n: nat, d: nat): (j: Option<nat>)
    requires r.rover < |r.blocks| && 1 <= d <= |r.blocks| + 1
    ensures j.Some? ==> j.value < |r.blocks| && n <= r.blocks[j.value].size
    ensures j.Some? ==> d <= Dist(r.rover, j.value, |r.blocks|)
                        && NoneBetween(r, n, d, Dist(r.rover, j.value, |r.blocks|))
    ensures j.None? ==> NoneBetween(r, n, d, |r.blocks| + 1)
    decreases |r.blocks| + 1 - d
  {
    var len := |r.blocks|;
    if d == len + 1 then None
    else
      var k := Ahead(r.rover, d, len);
      assert forall i :: 0 <= i < len && Dist(r.rover, i, len) == d ==> i == k;
      if n <= r.blocks[k].size then Some(k) else Search(r, n, d + 1)
  }

  /** The next-fit choice: the nearest node after the rover, in list order, that holds n units. */
  function NextFit(r: Ring, n: nat): (j: Option<nat>)
    requires r.rover < |r.blocks|
    ensures j.Some? ==> j.value < |r.blocks| && n <= r.blocks[j.value].size
    ensures j.Some? ==> NoneBetween(r, n, 1, Dist(r.rover, j.value, |r.blocks|))
    ensures j.None? <==> forall k :: 0 <= k < |r.blocks| ==> r.blocks[k].size < n
  {
    Search(r, n, 1)
  }

  // ---------------------------------------------------------------- carving a block off

  /** The n units handed out from node j: the tail end of the block. */
  function Carving(r: Ring, j: nat, n: nat): (b: Block)
    requires j < |r.blocks| && n <= r.blocks[j].size
  {
    Block(r.blocks[j].End() - n, n)
  }

  /** The list after n units were taken from node j; the rover is left on the node before j. */
  function Carve(r: Ring, j: nat, n: nat): (r': Ring)
    requires 1 <= j < |r.blocks| && n <= r.blocks[j].size
  {
    var b := r.blocks[j];
    if b.size == n then Ring(r.blocks[..j] + r.blocks[j + 1..], j - 1)
    else Ring(r.blocks[..j] + [Block(b.addr, b.size - n)] + r.blocks[j + 1..], j - 1)
  }

  lemma CarveKeepsWellFormed(r: Ring, j: nat, n: nat)
    requires WellFormed(r) && 1 <= j < |r.blocks| && 1 <= n <= r.blocks[j].size
    ensures WellFormed(Carve(r, j, n)) && Carve(r, j, n).blocks[0] == r.blocks[0]
  {
  }

  /** Carving conserves units: what the list covered is now on the list or handed out, never both. */
  lemma CarveCovers(r: Ring, j: nat, n: nat, u: int)
    requires WellFormed(r) && 1 <= j < |r.blocks| && 1 <= n <= r.blocks[j].size
    ensures Covers(r.blocks, u) <==> Covers(Carve(r, j, n).blocks, u) || Carving(r, j, n).Has(u)
    ensures !(Covers(Carve(r, j, n).blocks, u) && Carving(r, j, n).Has(u))
  {
    var bs := r.blocks;
    var low, b, high := bs[..j], bs[j], bs[j + 1..];
    assert bs == low + [b] + high;
    CoversSplice(low, b, high, u);
    CoversBelow(bs, j, u);
    CoversAbove(bs, j, u);
    if b.size == n {
      CoversConcat(low, high, u);
    } else {
      CoversSplice(low, Block(b.addr, b.size - n), high, u);
    }
  }

  lemma CoversBelow(bs: seq<Block>, j: nat, u: int)
    requires Separated(bs) && j < |bs|
    ensures Covers(bs[..j], u) ==> u < bs[j].addr
  {
  }

  lemma CoversAbove(bs: seq<Block>, j: nat, u: int)
    requires Separated(bs) && j < |bs|
    ensures Covers(bs[j + 1..], u) ==> bs[j].End() < u
  {
  }

  // ---------------------------------------------------------------- putting a block back

  /** How many list nodes lie below address a. */
  function Slot(bs: seq<Block>, a: int): (i: nat)
    requires Separated(bs)
    ensures i <= |bs|
    ensures forall k :: 0 <= k < i ==> bs[k].addr < a
    ensures forall k :: i <= k < |bs| ==> a <= bs[k].addr
  {
    if |bs| == 0 then 0
    else if bs[|bs| - 1].addr < a then |bs|
    else Slot(bs[..|bs| - 1], a)
  }

  /** Block b lies above the marker and shares no unit with any block on the list. */
  ghost predicate Apart(r: Ring, b: Block) {
    && |r.blocks| >= 1 && 1 <= b.size && r.blocks[0].addr < b.addr
    && forall i :: 1 <= i < |r.blocks| ==> b.End() <= r.blocks[i].addr || r.blocks[i].End() <= b.addr
  }

  /** Block b in front of the nodes above it, joined with the first of them when it touches it. */
  function JoinUp(b: Block, high: seq<Block>): (s: seq<Block>)
    ensures |s| >= 1 && s[0].addr == b.addr && b.size <= s[0].size
  {
    if high != [] && b.End() == high[0].addr then [Block(b.addr, b.size + high[0].size)] + high[1..]
    else [b] + high
  }

  /** The nodes below, followed by mid, the two joined when they touch. */
  function JoinDown(low: seq<Block>, mid: seq<Block>): seq<Block>
    requires |low| >= 1 && |mid| >= 1
  {
    var last := low[|low| - 1];
    if last.End() == mid[0].addr then low[..|low| - 1] + [Block(last.addr, last.size + mid[0].size)] + mid[1..]
    else low + mid
  }

  /** The list with block b put back and joined with the neighbours it touches; the rover moves to the node before b. */
  function Release(r: Ring, b: Block): (r': Ring)
    requires WellFormed(r) && Apart(r, b)
  {
    var i := Slot(r.blocks, b.addr);
    Ring(JoinDown(r.blocks[..i], JoinUp(b, r.blocks[i..])), i - 1)
  }

  lemma JoinUpIsSeparated(b: Block, high: seq<Block>)
    requires Separated(high) && forall k :: 0 <= k < |high| ==> b.End() <= high[k].addr
    ensures Separated(JoinUp(b, high))
    ensures forall k :: 0 <= k < |JoinUp(b, high)| ==> b.addr <= JoinUp(b, high)[k].addr
  {
    if high != [] && b.End() == high[0].addr {
      SeparatedSlice(high, 1, |high|);
      SeparatedSplice([], Block(b.addr, b.size + high[0].size), high[1..]);
    } else {
      assert high != [] ==> b.End() < high[0].addr;
      SeparatedSplice([], b, high);
    }
  }

  lemma JoinDownIsSeparated(low: seq<Block>, mid: seq<Block>)
    requires Separated(low) && Separated(mid) && |low| >= 1 && |mid| >= 1
    requires forall k :: 0 <= k < |low| ==> low[k].End() <= mid[0].addr
    ensures Separated(JoinDown(low, mid))
  {
    var last := low[|low| - 1];
    SeparatedSlice(mid, 1, |mid|);
    SeparatedSlice(low, 0, |low| - 1);
    assert mid == [mid[0]] + mid[1..];
    if last.End() == mid[0].addr {
      SeparatedSplice(low[..|low| - 1], Block(last.addr, last.size + mid[0].size), mid[1..]);
    } else {
      assert forall k :: 0 <= k < |low| - 1 ==> low[k].End() < last.addr <= last.End();
      SeparatedSplice(low, mid[0], mid[1..]);
      assert low + mid == low + [mid[0]] + mid[1..];
    }
  }

  lemma JoinUpCovers(b: Block, high: seq<Block>, u: int)
    ensures Covers(JoinUp(b, high), u) <==> b.Has(u) || Covers(high, u)
  {
    CoversSplice([], b, high, u);
    assert [] + [b] + high == [b] + high;
    if high != [] && b.End() == high[0].addr {
      var m := Block(b.addr, b.size + high[0].size);
      CoversSplice([], m, high[1..], u);
      CoversSplice([], high[0], high[1..], u);
      assert [] + [m] + high[1..] == [m] + high[1..];
      assert [] + [high[0]] + high[1..] == high;
    }
  }

  lemma JoinDownCovers(low: seq<Block>, mid: seq<Block>, u: int)
    requires |low| >= 1 && |mid| >= 1
    ensures Covers(JoinDown(low, mid), u) <==> Covers(low, u) || Covers(mid, u)
  {
    var last := low[|low| - 1];
    if last.End() == mid[0].addr {
      CoversSplice(low[..|low| - 1], Block(last.addr, last.size + mid[0].size), mid[1..], u);
      CoversSplice(low[..|low| - 1], last, [], u);
      CoversSplice([], mid[0], mid[1..], u);
      assert low[..|low| - 1] + [last] + [] == low;
      assert [] + [mid[0]] + mid[1..] == mid;
    } else {
      CoversConcat(low, mid, u);
    }
  }

  /** Everything below slot i ends before b begins, everything from there on begins after b ends. */
  lemma SlotSplits(r: Ring, b: Block)
    requires WellFormed(r) && Apart(r, b)
    ensures var i := Slot(r.blocks, b.addr);
            && 1 <= i
            && Separated(r.blocks[..i]) && Separated(r.blocks[i..])
            && (forall k :: 0 <= k < i ==> r.blocks[..i][k].End() <= b.addr)
            && (forall k :: 0 <= k < |r.blocks| - i ==> b.End() <= r.blocks[i..][k].addr)
  {
    var i := Slot(r.blocks, b.addr);
    SeparatedSlice(r.blocks, 0, i);
    SeparatedSlice(r.blocks, i, |r.blocks|);
  }

  /** Putting a block back keeps one separated cycle: every touching pair has been joined. */
  lemma ReleaseKeepsWellFormed(r: Ring, b: Block)
    requires WellFormed(r) && Apart(r, b)
    ensures WellFormed(Release(r, b)) && Release(r, b).blocks[0] == r.blocks[0]
  {
    var i := Slot(r.blocks, b.addr);
    SlotSplits(r, b);
    JoinUpIsSeparated(b, r.blocks[i..]);
    JoinDownIsSeparated(r.blocks[..i], JoinUp(b, r.blocks[i..]));
    ReleaseSizes(r, b);
  }

  lemma ReleaseSizes(r: Ring, b: Block)
    requires WellFormed(r) && Apart(r, b)
    ensures var s := Release(r, b).blocks; s != [] && s[0] == r.blocks[0] && forall k :: 1 <= k < |s| ==> 1 <= s[k].size
    ensures Release(r, b).rover < |Release(r, b).blocks|
  {
    hide Separated;
    var i := Slot(r.blocks, b.addr);
    SlotSplits(r, b);
    var high := r.blocks[i..];
    assert forall k :: 0 <= k < |high| ==> high[k] == r.blocks[i + k];
    assert forall k :: 0 <= k < |JoinUp(b, high)| ==> 1 <= JoinUp(b, high)[k].size;
    JoinDownSizes(r.blocks[..i], JoinUp(b, high));
  }

  lemma JoinDownSizes(low: seq<Block>, mid: seq<Block>)
    requires |low| >= 1 && |mid| >= 1 && low[|low| - 1].End() <= mid[0].addr
    requires forall k :: 1 <= k < |low| ==> 1 <= low[k].size
    requires forall k :: 0 <= k < |mid| ==> 1 <= mid[k].size
    requires |low| == 1 ==> low[0].End() < mid[0].addr
    ensures var s := JoinDown(low, mid); |low| <= |s| && s[0] == low[0] && forall k :: 1 <= k < |s| ==> 1 <= s[k].size
  {
  }

  lemma NotShared(r: Ring, b: Block, u: int)
    requires WellFormed(r) && Apart(r, b)
    ensures !(Covers(r.blocks, u) && b.Has(u))
  {
  }

  /** Putting a block back conserves units: the list covers exactly what it covered before and the block. */
  lemma ReleaseCovers(r: Ring, b: Block, u: int)
    requires WellFormed(r) && Apart(r, b)
    ensures Covers(Release(r, b).blocks, u) <==> Covers(r.blocks, u) || b.Has(u)
    ensures !(Covers(r.blocks, u) && b.Has(u))
  {
    hide Separated, Covers;
    var i := Slot(r.blocks, b.addr);
    SlotSplits(r, b);
    NotShared(r, b, u);
    JoinUpCovers(b, r.blocks[i..], u);
    JoinDownCovers(r.blocks[..i], JoinUp(b, r.blocks[i..]), u);
    CoversConcat(r.blocks[..i], r.blocks[i..], u);
    assert r.blocks == r.blocks[..i] + r.blocks[i..];
  }

  /** Some block of the list after putting b back is at least as large as b. */
  lemma ReleaseMakesRoom(r: Ring, b: Block, n: nat)
    requires WellFormed(r) && Apart(r, b) && n <= b.size
    ensures WellFormed(Release(r, b)) && NextFit(Release(r, b), n).Some?
  {
    ReleaseKeepsWellFormed(r, b);
    var i := Slot(r.blocks, b.addr);
    var low, mid, s := r.blocks[..i], JoinUp(b, r.blocks[i..]), Release(r, b).blocks;
    assert n <= s[if low[i - 1].End() == b.addr then i - 1 else i].size;
  }

  /**
    When no block of the list holds n units, putting b back leaves one that does: b with the neighbours it
    touches.  It ends where b ends or, if a block begins there, where that one does.
   */
  lemma OnlyReleasedFits(r: Ring, b: Block, n: nat)
    requires WellFormed(r) && Apart(r, b) && n <= b.size
    requires forall k :: 0 <= k < |r.blocks| ==> r.blocks[k].size < n
    ensures WellFormed(Release(r, b)) && NextFit(Release(r, b), n).Some?
    ensures var end := Release(r, b).blocks[NextFit(Release(r, b), n).value].End();
            && (forall k :: 0 <= k < |r.blocks| && r.blocks[k].addr == b.End() ==> end == r.blocks[k].End())
            && ((forall k :: 0 <= k < |r.blocks| ==> r.blocks[k].addr != b.End()) ==> end == b.End())
  {
    ReleaseMakesRoom(r, b, n);
    SlotSplits(r, b);
    hide NextFit, WellFormed, Separated;
    var i := Slot(r.blocks, b.addr);
    var high := r.blocks[i..];
    var at := JoinedRun(r.blocks[..i], b, high, n);
    var j := FitIs(Release(r, b), n);
    UpperNeighbour(r, b);
  }

  /** Block b joined with what it touches is the only block that can hold n units. */
  lemma JoinedRun(low: seq<Block>, b: Block, high: seq<Block>, n: nat) returns (at: nat)
    requires low != [] && n <= b.size
    requires forall k :: 0 <= k < |low| ==> low[k].size < n
    requires forall k :: 0 <= k < |high| ==> high[k].size < n
    ensures var s := JoinDown(low, JoinUp(b, high));
            && at < |s| && (forall k :: 0 <= k < |s| && n <= s[k].size ==> k == at)
            && s[at].End() == if high != [] && b.End() == high[0].addr then high[0].End() else b.End()
  {
    at := if low[|low| - 1].End() == b.addr then |low| - 1 else |low|;
  }

  /** Only the first node above b can begin where b ends. */
  lemma UpperNeighbour(r: Ring, b: Block)
    requires WellFormed(r) && Apart(r, b)
    ensures var i := Slot(r.blocks, b.addr);
            forall k :: 0 <= k < |r.blocks| && r.blocks[k].addr == b.End() ==> k == i
  {
    var i := Slot(r.blocks, b.addr);
    assert i < |r.blocks| ==> b.End() <= r.blocks[i].addr;
    assert forall k :: i < k < |r.blocks| ==> r.blocks[i].End() < r.blocks[k].addr;
  }

  lemma FitIs(r: Ring, n: nat) returns (j: nat)
    requires r.rover < |r.blocks| && NextFit(r, n).Some?
    ensures j == NextFit(r, n).value && j < |r.blocks| && n <= r.blocks[j].size
  {
    j := NextFit(r, n).value;
  }

  /** After a release the roving pointer is at the nearest node below the block, which lies there or right after. */
  lemma ReleaseLeavesRoverBefore(r: Ring, b: Block)
    requires WellFormed(r) && Apart(r, b)
    ensures var s := Release(r, b);
            && WellFormed(s)
            && s.blocks[s.rover].addr < b.addr
            && (forall k :: 0 <= k < |r.blocks| && r.blocks[k].addr < b.addr ==>
                  r.blocks[k].addr <= s.blocks[s.rover].addr)
            && (b.addr < s.blocks[s.rover].End() || (s.rover + 1 < |s.blocks| && s.blocks[s.rover + 1].addr == b.addr))
  {
    ReleaseKeepsWellFormed(r, b);
    SlotSplits(r, b);
    var i := Slot(r.blocks, b.addr);
    var low, mid, s := r.blocks[..i], JoinUp(b, r.blocks[i..]), Release(r, b);
    assert s.blocks[i - 1].addr == r.blocks[i - 1].addr;
    assert forall k :: 0 <= k < i - 1 ==> r.blocks[k].End() < r.blocks[i - 1].addr;
  }

  /**
    Next fit goes on where it stopped: after a carving the next search looks first at the remainder of the
    node served or, after an exact fit, at the node behind it.  From a remainder it carves the adjacent units.
   */
  lemma NextSearchResumes(r: Ring, j: nat, n: nat, m: nat)
    requires WellFormed(r) && 1 <= j < |r.blocks| && 1 <= n <= r.blocks[j].size && 1 <= m
    ensures var c := Carve(r, j, n);
            && WellFormed(c)
            && (n + m <= r.blocks[j].size ==>
                  NextFit(c, m) == Some(j) && Carving(c, j, m).End() == Carving(r, j, n).addr)
            && (n == r.blocks[j].size && j + 1 < |r.blocks| && m <= r.blocks[j + 1].size ==>
                  NextFit(c, m) == Some(j) && c.blocks[j] == r.blocks[j + 1])
  {
    CarveKeepsWellFormed(r, j, n);
    var c := Carve(r, j, n);
    assert c.rover == j - 1 && (j < |c.blocks| ==> Ahead(c.rover, 1, |c.blocks|) == j);
  }

  // ---------------------------------------------------------------- the list is canonical

  /** Blocks that carry no units out of the way, two separated lists covering the same units are equal. */
  lemma {:induction false} Canonical(s: seq<Block>, t: seq<Block>)
    requires Separated(s) && Separated(t)
    requires forall b :: b in s || b in t ==> 1 <= b.size
    requires forall u :: Covers(s, u) <==> Covers(t, u)
    ensures s == t
  {
    assert s != [] ==> s[0].Has(s[0].addr) && Covers(s, s[0].addr);
    assert t != [] ==> t[0].Has(t[0].addr) && Covers(t, t[0].addr);
    if s != [] && t != [] {
      SameHead(s, t);
      SameHead(t, s);
      forall u
        ensures Covers(s[1..], u) <==> Covers(t[1..], u)
      {
        CoversTail(s, u);
        CoversTail(t, u);
      }
      Canonical(s[1..], t[1..]);
      assert s == [s[0]] + s[1..] && t == [t[0]] + t[1..];
    }
  }

  lemma CoversTail(s: seq<Block>, u: int)
    requires Separated(s) && s != []
    ensures Covers(s[1..], u) <==> Covers(s, u) && s[0].End() <= u
  {
    if Covers(s[1..], u) {
      var i :| 0 <= i < |s[1..]| && s[1..][i].Has(u);
      assert s[i + 1].Has(u);
    }
    if Covers(s, u) && s[0].End() <= u {
      var i :| 0 <= i < |s| && s[i].Has(u);
      assert s[1..][i - 1].Has(u);
    }
  }

  /** The head of t starts no later than that of s and, starting together, reaches at least as far. */
  lemma SameHead(s: seq<Block>, t: seq<Block>)
    requires Separated(s) && Separated(t) && s != [] && t != []
    requires forall b :: b in s || b in t ==> 1 <= b.size
    requires forall u :: Covers(s, u) <==> Covers(t, u)
    ensures t[0].addr <= s[0].addr
    ensures t[0].addr == s[0].addr ==> s[0].End() <= t[0].End()
  {
    assert s[0].Has(s[0].addr);
    assert Covers(t, s[0].addr);
    assert !Covers(t, t[0].End());
    assert !s[0].Has(t[0].End());
  }

  /** Two well-formed rings with the same marker that cover the same units hold the same blocks. */
  lemma SameUnitsSameBlocks(r: Ring, s: Ring)
    requires WellFormed(r) && WellFormed(s) && r.blocks[0] == s.blocks[0]
    requires forall u :: Covers(r.blocks, u) <==> Covers(s.blocks, u)
    ensures r.blocks == s.blocks
  {
    forall u
      ensures Covers(r.blocks[1..], u) <==> Covers(s.blocks[1..], u)
    {
      CoversTail(r.blocks, u);
      CoversTail(s.blocks, u);
    }
    Canonical(r.blocks[1..], s.blocks[1..]);
    assert r.blocks == [r.blocks[0]] + r.blocks[1..] && s.blocks == [s.blocks[0]] + s.blocks[1..];
  }

  /** Freeing a block that a malloc carved off restores the blocks of the list exactly. */
  lemma ReleaseUndoesCarve(r: Ring, j: nat, n: nat)
    requires WellFormed(r) && 1 <= j < |r.blocks| && 1 <= n <= r.blocks[j].size
    ensures WellFormed(Carve(r, j, n)) && Apart(Carve(r, j, n), Carving(r, j, n))
    ensures Release(Carve(r, j, n), Carving(r, j, n)).blocks == r.blocks
  {
    var c, b := Carve(r, j, n), Carving(r, j, n);
    CarveKeepsWellFormed(r, j, n);
    ReleaseKeepsWellFormed(c, b);
    forall u
      ensures Covers(Release(c, b).blocks, u) <==> Covers(r.blocks, u)
    {
      CarveCovers(r, j, n, u);
      ReleaseCovers(c, b, u);
    }
    SameUnitsSameBlocks(Release(c, b), r);
  }
}
