/** The free map: one bit per block, eight to a byte, least significant first. */
module Bitmap {

  const BPB: nat := 8192       // bits in a block of the map

  type Bits = seq<bv8>

  function Mask(k: nat): bv8
    requires k < 8
  {
    1 << k
  }

  predicate Test(x: bv8, k: nat)
    requires k < 8
  {
    x & Mask(k) != 0
  }

  function Raise(x: bv8, k: nat): bv8
    requires k < 8
  {
    x | Mask(k)
  }

  function Lower(x: bv8, k: nat): bv8
    requires k < 8
  {
    x & !Mask(k)
  }

  lemma MaskValues()
    ensures Mask(0) == 1 && Mask(1) == 2 && Mask(2) == 4 && Mask(3) == 8
    ensures Mask(4) == 16 && Mask(5) == 32 && Mask(6) == 64 && Mask(7) == 128
  {
  }

  /** The eight masks are independent bits. */
  lemma MaskBits(x: bv8, j: nat, k: nat)
    requires j < 8 && k < 8
    ensures Test(Raise(x, k), j) <==> j == k || Test(x, j)
    ensures Test(Lower(x, k), j) <==> j != k && Test(x, j)
  {
    hide Mask;
    MaskValues();
  }

  predicate Bit(bits: Bits, b: nat)
    requires b / 8 < |bits|
  {
    Test(bits[b / 8], b % 8)
  }

  function SetBit(bits: Bits, b: nat): (r: Bits)
    requires b / 8 < |bits|
    ensures |r| == |bits|
  {
    bits[b / 8 := Raise(bits[b / 8], b % 8)]
  }

  function ClearBit(bits: Bits, b: nat): (r: Bits)
    requires b / 8 < |bits|
    ensures |r| == |bits|
  {
    bits[b / 8 := Lower(bits[b / 8], b % 8)]
  }

  /** Setting a bit sets that bit and no other. */
  lemma SetOneBit(bits: Bits, b: nat, c: nat)
    requires b / 8 < |bits| && c / 8 < |bits|
    ensures Bit(SetBit(bits, b), c) <==> c == b || Bit(bits, c)
  {
    hide Test, Raise;
    if b / 8 == c / 8 {
      MaskBits(bits[b / 8], c % 8, b % 8);
    }
  }

  /** Clearing a bit clears that bit and no other. */
  lemma ClearOneBit(bits: Bits, b: nat, c: nat)
    requires b / 8 < |bits| && c / 8 < |bits|
    ensures Bit(ClearBit(bits, b), c) <==> c != b && Bit(bits, c)
  {
    hide Test, Lower;
    if b / 8 == c / 8 {
      MaskBits(bits[b / 8], c % 8, b % 8);
    }
  }

  /** Bit bi of map block b / BPB, counted through the whole map. */
  lemma BytePlace(b: nat, bi: nat)
    requires b % BPB == 0 && bi < BPB
    ensures b / BPB * 1024 + bi / 8 == (b + bi) / 8
    ensures bi % 8 == (b + bi) % 8
    ensures (b + bi) / BPB == b / BPB
  {
  }
}
