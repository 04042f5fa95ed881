/** Bitwise operations on offsets, and what they do to a single bit. */
module Bits {
  import opened Laws

  function Pow2(e: nat): (p: nat)
    ensures 1 <= p
  {
    if e == 0 then 1 else 2 * Pow2(e - 1)
  }

  function And(x: nat, y: nat): nat {
    if x == 0 || y == 0 then 0 else 2 * And(x / 2, y / 2) + (if x % 2 == 1 && y % 2 == 1 then 1 else 0)
  }

  function Or(x: nat, y: nat): nat
    decreases x + y
  {
    if x == 0 && y == 0 then 0 else 2 * Or(x / 2, y / 2) + (if x % 2 == 1 || y % 2 == 1 then 1 else 0)
  }

  function Xor(x: nat, y: nat): nat
    decreases x + y
  {
    if x == 0 && y == 0 then 0 else 2 * Xor(x / 2, y / 2) + (if x % 2 != y % 2 then 1 else 0)
  }

  /** The bits of x from bit e on. */
  function High(x: nat, e: nat): nat {
    if e == 0 then x else High(x / 2, e - 1)
  }

  /** The bits of x below bit e. */
  function Low(x: nat, e: nat): nat {
    if e == 0 then 0 else 2 * Low(x / 2, e - 1) + x % 2
  }

  /** Bit e of x. */
  function Bit(x: nat, e: nat): (b: nat)
    ensures b <= 1
  {
    High(x, e) % 2
  }

  lemma PowZero()
    ensures Pow2(0) == 1
  {
  }

  lemma PowDoubles(e: nat)
    ensures Pow2(e + 1) == 2 * Pow2(e)
  {
  }

  lemma {:induction false} Pow2Monotone(d: nat, e: nat)
    requires d <= e
    ensures Pow2(d) <= Pow2(e)
  {
    if d < e { Pow2Monotone(d, e - 1); }
  }

  lemma Pow2Of32()
    ensures Pow2(31) == 0x8000_0000 && Pow2(32) == 0x1_0000_0000
  {
    assert Pow2(8) == 256;
    assert Pow2(16) == 65536;
    assert Pow2(24) == 0x100_0000;
    assert Pow2(31) == 0x8000_0000;
  }

  lemma {:induction false} PowSum(d: nat, e: nat)
    ensures Pow2(d + e) == Pow2(d) * Pow2(e)
  {
    if d > 0 { PowSum(d - 1, e); }
  }

  lemma DoubleProduct(k: int, p: int)
    ensures k * (2 * p) == 2 * (k * p) && (2 * p) * k == 2 * (p * k)
  {
  }

  /** A number is its bits from e on, shifted, and its bits below e. */
  lemma {:induction false} Decompose(x: nat, e: nat)
    ensures x == Pow2(e) * High(x, e) + Low(x, e) && Low(x, e) < Pow2(e)
  {
    if e > 0 {
      Decompose(x / 2, e - 1);
      DoubleProduct(High(x, e), Pow2(e - 1));
    }
  }

  lemma {:induction false} HighStep(x: nat, e: nat)
    ensures High(x, e) == 2 * High(x, e + 1) + Bit(x, e)
  {
    if e > 0 { HighStep(x / 2, e - 1); }
  }

  /** Shifting and masking are division and remainder by a power of two. */
  lemma DivisionIs(x: nat, e: nat)
    ensures x / Pow2(e) == High(x, e) && x % Pow2(e) == Low(x, e)
  {
    hide Pow2, High, Low;
    Decompose(x, e);
    DivisionIsUnique(x, Pow2(e), High(x, e), Low(x, e));
  }

  lemma {:induction false} LowKeepsHigh(x: nat, e: nat, w: nat)
    requires e <= w
    ensures High(Low(x, w), e) == Low(High(x, e), w - e)
  {
    if e > 0 { LowKeepsHigh(x / 2, e - 1, w - 1); }
  }

  lemma {:induction false} HighOfHigh(x: nat, d: nat, e: nat)
    ensures High(High(x, d), e) == High(x, d + e)
  {
    if d > 0 { HighOfHigh(x / 2, d - 1, e); }
  }

  lemma AndStep(x: nat, y: nat)
    ensures And(x, y) == 2 * And(x / 2, y / 2) + (if x % 2 == 1 && y % 2 == 1 then 1 else 0)
    ensures And(x, 0) == 0
  {
  }

  lemma OrStep(x: nat, h: nat)
    ensures Or(x, 2 * h) == 2 * Or(x / 2, h) + x % 2
  {
  }

  lemma XorStep(x: nat, h: nat)
    ensures Xor(x, 2 * h) == 2 * Xor(x / 2, h) + x % 2
  {
  }

  lemma {:induction false} AndPow(x: nat, e: nat)
    ensures And(x, Pow2(e)) == Bit(x, e) * Pow2(e)
  {
    hide And;
    AndStep(x, Pow2(e));
    AndStep(x / 2, 0);
    if e > 0 {
      AndPow(x / 2, e - 1);
      DoubleProduct(Bit(x, e), Pow2(e - 1));
    }
  }

  lemma {:induction false} AndOnes(x: nat, w: nat)
    ensures And(x, Pow2(w) - 1) == Low(x, w)
  {
    hide And, Pow2;
    if w > 0 {
      PowDoubles(w - 1);
      AndOnes(x / 2, w - 1);
      AndOdd(x, Pow2(w - 1) - 1);
    } else {
      PowZero();
      AndStep(x, 0);
    }
  }

  /** A w-bit mask with all bits but bit e keeps the low w bits, with bit e cleared. */
  lemma AndMask(x: nat, e: nat, w: nat)
    requires e < w
    ensures Pow2(e) <= Pow2(w) - 1
    ensures And(x, Pow2(w) - 1 - Pow2(e)) == Low(x, w) - Bit(x, e) * Pow2(e)
  {
    hide And, Pow2, Low;
    AndWithoutBit(x, e, w);
    assert Bit(x, e) == 0 || Bit(x, e) == 1;
  }

  lemma {:induction false} AndWithoutBit(x: nat, e: nat, w: nat)
    requires e < w
    ensures Pow2(e) <= Pow2(w) - 1
    ensures And(x, Pow2(w) - 1 - Pow2(e)) == Low(x, w) - if Bit(x, e) == 1 then Pow2(e) else 0
  {
    hide And, Pow2;
    Pow2Monotone(e + 1, w);
    PowDoubles(w - 1);
    PowDoubles(e);
    if e == 0 {
      PowZero();
      AndEven(x, Pow2(w - 1) - 1);
      AndOnes(x / 2, w - 1);
    } else {
      hide Low, High, Bit;
      LowBitStep(x, e, w);
      PowDoubles(e - 1);
      AndWithoutBit(x / 2, e - 1, w - 1);
      AndOdd(x, Pow2(w - 1) - 1 - Pow2(e - 1));
    }
  }

  lemma LowBitStep(x: nat, e: nat, w: nat)
    requires 1 <= e && 1 <= w
    ensures Low(x, w) == 2 * Low(x / 2, w - 1) + x % 2 && Bit(x, e) == Bit(x / 2, e - 1)
  {
  }

  lemma AndEven(x: nat, h: nat)
    ensures And(x, 2 * h) == 2 * And(x / 2, h)
  {
    hide And;
    AndStep(x, 2 * h);
  }

  lemma AndOdd(x: nat, h: nat)
    ensures And(x, 2 * h + 1) == 2 * And(x / 2, h) + x % 2
  {
    hide And;
    AndStep(x, 2 * h + 1);
  }

  lemma {:induction false} OrXorZero(x: nat)
    ensures Or(x, 0) == x && Xor(x, 0) == x
  {
    if x > 0 { OrXorZero(x / 2); }
  }

  lemma {:induction false} OrPow(x: nat, e: nat)
    ensures Or(x, Pow2(e)) == x + (1 - Bit(x, e)) * Pow2(e)
  {
    if e == 0 {
      OrXorZero(x / 2);
    } else {
      OrPow(x / 2, e - 1);
      OrStep(x, Pow2(e - 1));
      DoubleProduct(1 - Bit(x, e), Pow2(e - 1));
    }
  }

  lemma {:induction false} XorPow(x: nat, e: nat)
    ensures Xor(x, Pow2(e)) == x + (1 - 2 * Bit(x, e)) * Pow2(e)
  {
    if e == 0 {
      OrXorZero(x / 2);
    } else {
      XorPow(x / 2, e - 1);
      XorStep(x, Pow2(e - 1));
      DoubleProduct(1 - 2 * Bit(x, e), Pow2(e - 1));
    }
  }
}

/**
  Buddy addresses: offsets from the base of an arena of blocks of 2^e bytes, and the bit each pair
  of buddies shares.
 */
module BuddyAddress {
  import opened Laws
  import opened Bits

  const TWO_32 := 0x1_0000_0000

  /** The offset with bit e set: the upper buddy. */
  function Set(off: nat, e: nat): nat { Or(off, Pow2(e)) }

  /** The offset with bit e cleared; the complemented mask is a 32-bit unsigned, so higher bits are lost. */
  function Clear(off: nat, e: nat): nat
    requires e < 31
  {
    MaskFits(e);
    And(off, TWO_32 - 1 - Pow2(e))
  }

  lemma MaskFits(e: nat)
    requires e < 31
    ensures 2 * Pow2(e) <= TWO_32 / 2
  {
    Pow2Of32();
    Pow2Monotone(e + 1, 31);
  }

  /** The offset with bit e inverted: the other buddy. */
  function Invert(off: nat, e: nat): nat { Xor(off, Pow2(e)) }

  /** Nonzero for the upper buddy. */
  function Test(off: nat, e: nat): nat { And(off, Pow2(e)) }

  function Div(n: nat, d: nat): nat
    requires 1 <= d
  {
    n / d
  }

  function DivUp(n: nat, d: nat): nat
    requires 1 <= d
  {
    Div(n + d - 1, d)
  }

  /** How many bits the map of an arena has. */
  function MapSize(size: nat, e: nat): nat { DivUp(DivUp(size, Pow2(e)), 2) }

  /** The bit for an offset. */
  function BitAddress(off: nat, e: nat): nat
    requires e < 31
  {
    Div(Div(Clear(off, e), Pow2(e)), 2)
  }

  /** The pair of buddies an offset belongs to. */
  function PairOf(off: nat, e: nat): nat { Div(off, Pow2(e + 1)) }

  /** The bits of an offset: its pair, which buddy it is in, and its place in the block. */
  lemma OffsetBits(off: nat, e: nat)
    ensures PairOf(off, e) == High(off, e + 1)
    ensures off == Pow2(e + 1) * PairOf(off, e) + Bit(off, e) * Pow2(e) + Low(off, e) && Low(off, e) < Pow2(e)
    ensures Div(off, Pow2(e)) == 2 * PairOf(off, e) + Bit(off, e)
  {
    hide High, Low, Bit;
    DivisionIs(off, e + 1);
    DivisionIs(off, e);
    HighStep(off, e);
    Decompose(off, e);
    Distribute(Pow2(e), High(off, e + 1), Bit(off, e));
  }

  lemma Distribute(p: nat, q: nat, b: nat)
    ensures p * (2 * q + b) == (2 * p) * q + b * p
  {
  }

  /** Clearing keeps the low 32 bits, with bit e cleared. */
  lemma ClearIs(off: nat, e: nat)
    requires e < 31
    ensures Clear(off, e) == Low(off, 32) - Bit(off, e) * Pow2(e)
  {
    hide And, Low, Bit, Pow2;
    Pow2Of32();
    AndMask(off, e, 32);
  }

  /** The low 32 bits of an offset have the same bit e. */
  lemma LowKeepsBit(off: nat, e: nat)
    requires e < 31
    ensures Bit(Low(off, 32), e) == Bit(off, e)
  {
    LowKeepsHigh(off, e, 32);
    assert Low(High(off, e), 32 - e) % 2 == High(off, e) % 2;
  }

  /** The bit of an offset is the pair its low 32 bits belong to. */
  lemma BitAddressIs(off: nat, e: nat)
    requires e < 31
    ensures BitAddress(off, e) == PairOf(Low(off, 32), e)
  {
    hide Low, Bit, Clear, PairOf, Div, Pow2;
    var x := Low(off, 32);
    ClearIs(off, e);
    LowKeepsBit(off, e);
    OffsetBits(x, e);
    PowDoubles(e);
    ClearedQuotient(Pow2(e), PairOf(x, e), Bit(x, e), Low(x, e));
  }

  /** With bit e gone, the block number is even, and half of it is the pair. */
  lemma ClearedQuotient(p: nat, q: nat, b: nat, r: nat)
    requires r < p
    ensures (2 * p) * q + b * p + r - b * p >= 0
    ensures Div(Div((2 * p) * q + b * p + r - b * p, p), 2) == q
  {
    Distribute(p, q, 0);
    DivisionIsUnique((2 * p) * q + r, p, 2 * q, r);
  }

  /** The bit addresses the pair of the offset exactly for the offsets the 32-bit mask leaves whole. */
  lemma BitAddressIsPairBelow4GiB(off: nat, e: nat)
    requires e < 31
    ensures BitAddress(off, e) == PairOf(off, e) <==> off < TWO_32
  {
    hide Low, High, PairOf, BitAddress, Pow2;
    BitAddressIs(off, e);
    Pow2Of32();
    DivisionIs(off, 32);
    PowSum(e + 1, 31 - e);
    OffsetBits(off, e);
    OffsetBits(Low(off, 32), e);
    PairsApart(off, e);
  }

  lemma NextQuotient(x: nat, p: nat)
    requires 1 <= p
    ensures (x + p) / p == x / p + 1
  {
    assert p * (x / p + 1) == p * (x / p) + p;
    DivisionIsUnique(x + p, p, x / p + 1, x % p);
  }

  /** An offset from 4 GiB on lies in a later pair than its low 32 bits. */
  lemma PairsApart(off: nat, e: nat)
    requires e < 31
    ensures if off < TWO_32 then Low(off, 32) == off else PairOf(Low(off, 32), e) < PairOf(off, e)
  {
    hide Low, Pow2;
    Pow2Of32();
    DivisionIs(off, 32);
    if off >= TWO_32 {
      MaskFits(e);
      PowDoubles(e);
      NextQuotient(Low(off, 32), Pow2(e + 1));
      DivisionMonotone(Low(off, 32) + Pow2(e + 1), off, Pow2(e + 1));
    }
  }

  lemma DivisionMonotone(a: nat, b: nat, d: nat)
    requires a <= b && 1 <= d
    ensures a / d <= b / d
  {
    var k: int := a / d - b / d;
    assert a == d * (a / d) + a % d && b == d * (b / d) + b % d;
    assert d * k == (a - a % d) - (b - b % d);
    assert k >= 1 ==> d * k >= d;
  }

  /**
    Every offset in an arena has its bit in the map, and the last bit of the map is the bit of some offset
    if and only if the arena is at most 4 GiB.
   */
  lemma MapSizeIsExact(size: nat, e: nat)
    requires e < 31 && 1 <= size
    ensures forall off :: 0 <= off < size ==> BitAddress(off, e) < MapSize(size, e)
    ensures (exists off :: 0 <= off < size && BitAddress(off, e) == MapSize(size, e) - 1) <==> size <= TWO_32
  {
    hide BitAddress, MapSize, PairOf, Pow2, High;
    LastPair(size, e);
    BitOfPair(size - 1, e);
    forall off: nat | off < size
      ensures BitAddress(off, e) <= PairOf(size - 1, e)
      ensures TWO_32 < size ==> BitAddress(off, e) < PairOf(size - 1, e)
    {
      BitOfPair(off, e);
      PairsInOrder(off, size - 1, e);
    }
  }

  /** The bit is no greater than the pair, equal to it below 4 GiB, and always smaller than a pair from there on. */
  lemma BitOfPair(off: nat, e: nat)
    requires e < 31
    ensures BitAddress(off, e) <= PairOf(off, e) && BitAddress(off, e) < Pow2(31 - e)
    ensures if off < TWO_32 then BitAddress(off, e) == PairOf(off, e) else Pow2(31 - e) <= PairOf(off, e)
  {
    hide BitAddress, PairOf, Pow2, High;
    PairIsBitAndRest(off, e);
    Pow2Of32();
    DivisionIs(off, 32);
    var rest := High(off, 32);
    assert rest == 0 ==> Pow2(31 - e) * rest == 0;
    assert rest >= 1 ==> Pow2(31 - e) * rest >= Pow2(31 - e);
  }

  lemma LastPair(size: nat, e: nat)
    requires 1 <= size
    ensures MapSize(size, e) == PairOf(size - 1, e) + 1
  {
    hide Pow2, Bit, Low, DivUp;
    OffsetBits(size - 1, e);
    DivUpTwice(size, Pow2(e));
  }

  lemma PairsInOrder(a: nat, b: nat, e: nat)
    requires a <= b
    ensures PairOf(a, e) <= PairOf(b, e)
  {
    DivisionMonotone(a, b, Pow2(e + 1));
  }

  lemma DivUpTwice(size: nat, p: nat)
    requires 1 <= size && 1 <= p
    ensures DivUp(DivUp(size, p), 2) == Div(Div(size - 1, p), 2) + 1
  {
    var q, r := (size - 1) / p, (size - 1) % p;
    assert p * (q + 1) == p * q + p;
    DivisionIsUnique(size + p - 1, p, q + 1, r);
  }

  /** What setting, clearing and inverting bit e do: the upper, the lower and the other buddy of the same pair. */
  lemma BuddiesOfAPair(off: nat, e: nat)
    requires e < 31 && off < TWO_32
    ensures var (q, r) := (PairOf(off, e), Low(off, e));
            && Clear(off, e) == Pow2(e + 1) * q + r && Set(off, e) == Pow2(e + 1) * q + Pow2(e) + r
            && off == (if Test(off, e) != 0 then Set(off, e) else Clear(off, e))
            && Invert(off, e) == (if Test(off, e) != 0 then Clear(off, e) else Set(off, e))
  {
    hide And, Or, Xor, Clear, Bit, Low, Pow2, PairOf;
    ClearIs(off, e);
    PairsApart(off, e);
    OrPow(off, e);
    XorPow(off, e);
    AndPow(off, e);
    OffsetBits(off, e);
    var b := Bit(off, e);
    assert b == 0 || b == 1;
  }

  /** An offset is determined by its pair, its buddy and its place, each of which can be read back. */
  lemma OffsetIn(q: nat, b: nat, r: nat, e: nat)
    requires b <= 1 && r < Pow2(e)
    ensures var x := Pow2(e + 1) * q + b * Pow2(e) + r; PairOf(x, e) == q && Bit(x, e) == b && Low(x, e) == r
  {
    hide High, Low, Pow2;
    var p := Pow2(e);
    var x := Pow2(e + 1) * q + b * p + r;
    PowDoubles(e);
    assert b * p + r < 2 * p by { assert b == 0 || b == 1; }
    DivisionIsUnique(x, 2 * p, q, b * p + r);
    Distribute(p, q, b);
    DivisionIsUnique(x, p, 2 * q + b, r);
    DivisionIs(x, e);
  }

  /** Inverting is an involution without fixed points, and stays within the pair. */
  lemma InvertIsAnInvolution(off: nat, e: nat)
    ensures Invert(Invert(off, e), e) == off && Invert(off, e) != off
    ensures PairOf(Invert(off, e), e) == PairOf(off, e) && Low(Invert(off, e), e) == Low(off, e)
  {
    hide Xor, Bit, Low, Pow2, PairOf;
    XorPow(off, e);
    OffsetBits(off, e);
    var q, b, r := PairOf(off, e), Bit(off, e), Low(off, e);
    assert b == 0 || b == 1;
    assert Invert(off, e) == Pow2(e + 1) * q + (1 - b) * Pow2(e) + r;
    OffsetIn(q, 1 - b, r, e);
    XorPow(Invert(off, e), e);
  }

  /** The bit of an offset is its pair modulo 2^(31-e), and what the bit drops of the pair are the bits from 32 on. */
  lemma PairIsBitAndRest(off: nat, e: nat)
    requires e < 31
    ensures PairOf(off, e) == Pow2(31 - e) * High(off, 32) + BitAddress(off, e) && BitAddress(off, e) < Pow2(31 - e)
  {
    hide BitAddress, PairOf, Pow2, High, Low;
    BitAddressIs(off, e);
    DivisionIs(off, e + 1);
    DivisionIs(Low(off, 32), e + 1);
    LowKeepsHigh(off, e + 1, 32);
    PairIsHigh(off, e);
    PairIsHigh(Low(off, 32), e);
    Decompose(High(off, e + 1), 31 - e);
    HighOfHigh(off, e + 1, 31 - e);
  }

  lemma PairIsHigh(off: nat, e: nat)
    ensures PairOf(off, e) == High(off, e + 1)
  {
    DivisionIs(off, e + 1);
  }

  /** Two offsets lie in the same pair if and only if they share a bit and agree from 4 GiB on; buddies always share. */
  lemma SharedBitIsSharedPair(a: nat, b: nat, e: nat)
    requires e < 31
    ensures PairOf(a, e) == PairOf(b, e) <==> BitAddress(a, e) == BitAddress(b, e) && a / TWO_32 == b / TWO_32
    ensures BitAddress(Invert(a, e), e) == BitAddress(a, e)
  {
    hide BitAddress, PairOf, Invert, Pow2, High;
    var c := Invert(a, e);
    InvertIsAnInvolution(a, e);
    forall x | x in {a, b, c}
      ensures PairOf(x, e) == Pow2(31 - e) * (x / TWO_32) + BitAddress(x, e) && BitAddress(x, e) < Pow2(31 - e)
    {
      PairIsBitAndRest(x, e);
      Pow2Of32();
      DivisionIs(x, 32);
    }
    SamePair(Pow2(31 - e), a / TWO_32, BitAddress(a, e), b / TWO_32, BitAddress(b, e));
    SamePair(Pow2(31 - e), a / TWO_32, BitAddress(a, e), c / TWO_32, BitAddress(c, e));
  }

  lemma SamePair(p: nat, q: nat, r: nat, q': nat, r': nat)
    requires r < p && r' < p
    ensures p * q + r == p * q' + r' <==> q == q' && r == r'
  {
    DivisionIsUnique(p * q + r, p, q, r);
    DivisionIsUnique(p * q' + r', p, q', r');
  }
}
