/** The general-purpose bitmap: bits packed into bytes, with a range check that ends the process. */
module Bitmaps {
  const BITS_PER_BYTE := 8

  function Mask(k: nat): bv8
    requires k < BITS_PER_BYTE
  {
    [1, 2, 4, 8, 16, 32, 64, 128][k]
  }

  function BitSet(x: bv8, k: nat): bv8
    requires k < BITS_PER_BYTE
  {
    x | Mask(k)
  }

  function BitClear(x: bv8, k: nat): bv8
    requires k < BITS_PER_BYTE
  {
    x & !Mask(k)
  }

  function BitInvert(x: bv8, k: nat): bv8
    requires k < BITS_PER_BYTE
  {
    x ^ Mask(k)
  }

  predicate BitTest(x: bv8, k: nat)
    requires k < BITS_PER_BYTE
  {
    x & Mask(k) != 0
  }

  /** Setting, clearing or inverting a bit of a byte changes that bit and no other. */
  lemma OneBit(x: bv8, k: nat, j: nat)
    requires k < BITS_PER_BYTE && j < BITS_PER_BYTE
    ensures BitTest(BitSet(x, k), j) <==> j == k || BitTest(x, j)
    ensures BitTest(BitClear(x, k), j) <==> j != k && BitTest(x, j)
    ensures BitTest(BitInvert(x, k), j) <==> (j == k) != BitTest(x, j)
  {
    hide Mask;
    MasksApart(k, j);
    MasksApart(j, k);
    MaskedBits(x, Mask(k), Mask(j));
  }

  lemma MasksApart(k: nat, j: nat)
    requires k < BITS_PER_BYTE && j < BITS_PER_BYTE
    ensures Mask(k) & Mask(j) == if k == j then Mask(k) else 0
    ensures Mask(k) == Mask(j) <==> k == j
    ensures Mask(k) in {1, 2, 4, 8, 16, 32, 64, 128}
  {
  }

  lemma MaskedBits(x: bv8, m: bv8, n: bv8)
    requires m & n == if m == n then m else 0
    requires m in {1, 2, 4, 8, 16, 32, 64, 128} && n in {1, 2, 4, 8, 16, 32, 64, 128}
    ensures (x | m) & n != 0 <==> m == n || x & n != 0
    ensures (x & !m) & n != 0 <==> m != n && x & n != 0
    ensures (x ^ m) & n != 0 <==> (m == n) != (x & n != 0)
  {
  }

  class Bitmap {
    const bits: nat
    const bytes: array<bv8>

    ghost predicate Valid()
    {
      bytes.Length == (bits + BITS_PER_BYTE - 1) / BITS_PER_BYTE
    }

    /** The positions whose bit is set. */
    ghost function Marked(): (s: set<nat>)
      requires Valid()
      reads bytes
    {
      set i: nat | i < bits && Holds(bytes[..], i)
    }

    constructor (bits: nat)
      ensures Valid() && this.bits == bits && fresh(bytes) && Marked() == {}
      ensures bytes.Length == (bits + 7) / 8
    {
      this.bits := bits;
      this.bytes := new bv8[(bits + BITS_PER_BYTE - 1) / BITS_PER_BYTE](_ => 0);
      new;
      assert forall i :: 0 <= i < |bytes[..]| ==> bytes[..][i] == 0;
    }

    /** Set bit i; out of range the process ends, which ok being false stands for. */
    method Set(i: nat) returns (ok: bool)
      requires Valid()
      modifies bytes
      ensures ok <==> i < bits
      ensures Marked() == if ok then old(Marked()) + {i} else old(Marked())
      ensures forall b :: 0 <= b < bytes.Length && b != i / 8 ==> bytes[b] == old(bytes[b])
    {
      if i >= bits {
        return false;
      }
      bytes[i / BITS_PER_BYTE] := BitSet(bytes[i / BITS_PER_BYTE], i % BITS_PER_BYTE);
      forall j: nat | j < bits
        ensures Holds(bytes[..], j) <==> j == i || old(Holds(bytes[..], j))
      {
        OneBit(old(bytes[i / BITS_PER_BYTE]), i % BITS_PER_BYTE, j % BITS_PER_BYTE);
      }
      return true;
    }

    /** Clear bit i, with the same range check. */
    method Clear(i: nat) returns (ok: bool)
      requires Valid()
      modifies bytes
      ensures ok <==> i < bits
      ensures Marked() == if ok then old(Marked()) - {i} else old(Marked())
      ensures forall b :: 0 <= b < bytes.Length && b != i / 8 ==> bytes[b] == old(bytes[b])
    {
      if i >= bits {
        return false;
      }
      bytes[i / BITS_PER_BYTE] := BitClear(bytes[i / BITS_PER_BYTE], i % BITS_PER_BYTE);
      forall j: nat | j < bits
        ensures Holds(bytes[..], j) <==> j != i && old(Holds(bytes[..], j))
      {
        OneBit(old(bytes[i / BITS_PER_BYTE]), i % BITS_PER_BYTE, j % BITS_PER_BYTE);
      }
      return true;
    }

    /** Whether bit i is set, with the same range check. */
    method Test(i: nat) returns (ok: bool, r: bool)
      requires Valid()
      ensures ok <==> i < bits
      ensures ok ==> (r <==> i in Marked())
    {
      if i >= bits {
        return false, false;
      }
      return true, BitTest(bytes[i / BITS_PER_BYTE], i % BITS_PER_BYTE);
    }
  }

  /** Bit i of a sequence of bytes; positions past the end hold nothing. */
  predicate Holds(bytes: seq<bv8>, i: nat) {
    i / BITS_PER_BYTE < |bytes| && BitTest(bytes[i / BITS_PER_BYTE], i % BITS_PER_BYTE)
  }
}

/** The buddy bitmap: one bit for each pair of buddies of an arena. */
module BuddyBitmap {
  import opened Bitmaps
  import opened BuddyAddress

  datatype Update = Mark(mem: int) | Unmark(mem: int)

  method SetPair(b: Bitmap, base: int, mem: int, e: nat) returns (ok: bool)
    requires b.Valid() && base <= mem && e < 31
    modifies b.bytes
    ensures ok <==> BitAddress(mem - base, e) < b.bits
    ensures b.Marked() == if ok then old(b.Marked()) + {BitAddress(mem - base, e)} else old(b.Marked())
  {
    ok := b.Set(BitAddress(mem - base, e));
  }

  method ClearPair(b: Bitmap, base: int, mem: int, e: nat) returns (ok: bool)
    requires b.Valid() && base <= mem && e < 31
    modifies b.bytes
    ensures ok <==> BitAddress(mem - base, e) < b.bits
    ensures b.Marked() == if ok then old(b.Marked()) - {BitAddress(mem - base, e)} else old(b.Marked())
  {
    ok := b.Clear(BitAddress(mem - base, e));
  }

  method TestPair(b: Bitmap, base: int, mem: int, e: nat) returns (ok: bool, r: bool)
    requires b.Valid() && base <= mem && e < 31
    ensures ok <==> BitAddress(mem - base, e) < b.bits
    ensures ok ==> (r <==> BitAddress(mem - base, e) in b.Marked())
  {
    ok, r := b.Test(BitAddress(mem - base, e));
  }

  ghost predicate InArena(base: int, size: nat, updates: seq<Update>) {
    forall k :: 0 <= k < |updates| ==> base <= updates[k].mem < base + size
  }

  /** The pairs marked after the updates: a plain set, told of whole pairs. */
  function PairsAfter(base: int, size: nat, e: nat, updates: seq<Update>): set<nat>
    requires InArena(base, size, updates)
  {
    if updates == [] then {}
    else
      var before := PairsAfter(base, size, e, updates[..|updates| - 1]);
      var last := updates[|updates| - 1];
      if last.Mark? then before + {PairOf(last.mem - base, e)} else before - {PairOf(last.mem - base, e)}
  }

  /**
    Any run of updates inside an arena of at most 4 GiB passes every range check, and the bytes then
    stand for exactly the marked pairs: an address tests as marked exactly when its pair is.
   */
  method Replay(base: int, size: nat, e: nat, updates: seq<Update>, probe: int) returns (b: Bitmap, marked: bool)
    requires e < 31 && size <= TWO_32 && InArena(base, size, updates) && base <= probe < base + size
    ensures b.Valid() && b.bits == MapSize(size, e)
    ensures b.Marked() == PairsAfter(base, size, e, updates)
    ensures marked <==> PairOf(probe - base, e) in PairsAfter(base, size, e, updates)
  {
    hide PairOf, BitAddress, MapSize;
    b := new Bitmap(MapSize(size, e));
    var k := 0;
    while k < |updates|
      invariant 0 <= k <= |updates|
      invariant b.Valid() && b.bits == MapSize(size, e) && fresh(b.bytes)
      invariant b.Marked() == PairsAfter(base, size, e, updates[..k])
    {
      var off := updates[k].mem - base;
      MapSizeIsExact(size, e);
      BitAddressIsPairBelow4GiB(off, e);
      assert updates[..k + 1][..k] == updates[..k];
      var ok: bool;
      match updates[k] {
        case Mark(mem) => ok := SetPair(b, base, mem, e);
        case Unmark(mem) => ok := ClearPair(b, base, mem, e);
      }
      assert ok;
      k := k + 1;
    }
    assert updates[..k] == updates;
    MapSizeIsExact(size, e);
    BitAddressIsPairBelow4GiB(probe - base, e);
    var ok;
    ok, marked := TestPair(b, base, probe, e);
  }
}
