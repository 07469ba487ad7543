/** Bits in bytes, as the free lists of kernel/core/memory.c keep them: bit i is bit i % 8 of byte i / 8. */
module Bitmap {
  /** 1 << i */
  function Mask(i: nat): bv8
    requires i < 8
  {
    if i == 0 then 1 else if i == 1 then 2 else if i == 2 then 4 else if i == 3 then 8
    else if i == 4 then 16 else if i == 5 then 32 else if i == 6 then 64 else 128
  }

  lemma MaskIsShift(i: nat)
    requires i < 8
    ensures Mask(i) == (1 as bv8) << i
    ensures Mask(i) as int == [1, 2, 4, 8, 16, 32, 64, 128][i]
  {
  }

  predicate BitSet(x: bv8, i: nat)
    requires i < 8
  {
    x & Mask(i) != 0
  }

  lemma SetBit(x: bv8, i: nat, j: nat)
    requires i < 8 && j < 8
    ensures BitSet(x | Mask(i), j) <==> i == j || BitSet(x, j)
  {
  }

  lemma ClearBit(x: bv8, i: nat, j: nat)
    requires i < 8 && j < 8
    ensures BitSet(x & !Mask(i), j) <==> i != j && BitSet(x, j)
  {
  }

  lemma ByteFromBits(x: bv8, y: bv8)
    requires forall i: nat | i < 8 :: BitSet(x, i) == BitSet(y, i)
    ensures x == y
  {
    assert BitSet(x, 0) == BitSet(y, 0) && BitSet(x, 1) == BitSet(y, 1);
    assert BitSet(x, 2) == BitSet(y, 2) && BitSet(x, 3) == BitSet(y, 3);
    assert BitSet(x, 4) == BitSet(y, 4) && BitSet(x, 5) == BitSet(y, 5);
    assert BitSet(x, 6) == BitSet(y, 6) && BitSet(x, 7) == BitSet(y, 7);
  }

  function Bits(bytes: seq<bv8>): (bits: seq<bool>)
    ensures |bits| == 8 * |bytes|
  {
    seq(8 * |bytes|, i requires 0 <= i < 8 * |bytes| => BitSet(bytes[i / 8], i % 8))
  }

  /** A byte that differs in one bit changes that bit of the whole. */
  lemma ReplaceByte(bytes: seq<bv8>, i: nat, x: bv8, bit: bool)
    requires i < 8 * |bytes|
    requires forall j: nat | j < 8 :: BitSet(x, j) == if j == i % 8 then bit else BitSet(bytes[i / 8], j)
    ensures Bits(bytes[i / 8 := x]) == Bits(bytes)[i := bit]
  {
  }

  lemma SetInBits(bytes: seq<bv8>, i: nat)
    requires i < 8 * |bytes|
    ensures Bits(bytes[i / 8 := bytes[i / 8] | Mask(i % 8)]) == Bits(bytes)[i := true]
  {
    hide Mask, BitSet;
    var x := bytes[i / 8];
    var b := i % 8;
    var y := x | Mask(b);
    forall j: nat | j < 8
      ensures BitSet(y, j) == if j == b then true else BitSet(x, j)
    {
      SetBit(x, b, j);
    }
    ReplaceByte(bytes, i, y, true);
  }

  lemma ClearInBits(bytes: seq<bv8>, i: nat)
    requires i < 8 * |bytes|
    ensures Bits(bytes[i / 8 := bytes[i / 8] & !Mask(i % 8)]) == Bits(bytes)[i := false]
  {
    hide Mask, BitSet;
    var x := bytes[i / 8];
    var b := i % 8;
    var y := x & !Mask(b);
    forall j: nat | j < 8
      ensures BitSet(y, j) == if j == b then false else BitSet(x, j)
    {
      ClearBit(x, b, j);
    }
    ReplaceByte(bytes, i, y, false);
  }

  /** The bits determine the bytes. */
  lemma BitsInjective(a: seq<bv8>, b: seq<bv8>)
    requires Bits(a) == Bits(b)
    ensures a == b
  {
    hide Mask, BitSet;
    forall k | 0 <= k < |a|
      ensures a[k] == b[k]
    {
      forall i: nat | i < 8
        ensures BitSet(a[k], i) == BitSet(b[k], i)
      {
        assert Bits(a)[8 * k + i] == Bits(b)[8 * k + i];
      }
      ByteFromBits(a[k], b[k]);
    }
  }

  lemma AllOnes(n: nat)
    ensures Bits(seq(n, i => 0xFF as bv8)) == seq(8 * n, i => true)
  {
  }
}
