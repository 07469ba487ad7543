/**
 Byte strings: the little-endian layout of the packed structures, and the byte sum
 on which every checksum of the logging code rests.
 */
module Bytes {
  import opened Widths

  function Le16(x: u16): (b: seq<u8>)
    ensures |b| == 2
  {
    [x % 256, x / 256]
  }

  function Le32(x: u32): (b: seq<u8>)
    ensures |b| == 4
  {
    Le16(x % TWO_16) + Le16(x / TWO_16)
  }

  function FromLe16(b: seq<u8>): u16
    requires |b| == 2
  {
    (b[0] as int) + 256 * (b[1] as int)
  }

  function FromLe32(b: seq<u8>): u32
    requires |b| == 4
  {
    (FromLe16(b[..2]) as int) + TWO_16 * FromLe16(b[2..])
  }

  lemma Le16Inverse(x: u16, b: seq<u8>)
    requires |b| == 2
    ensures FromLe16(Le16(x)) == x
    ensures Le16(FromLe16(b)) == b
  {
    assert b == [b[0], b[1]];
  }

  lemma Le32Inverse(x: u32, b: seq<u8>)
    requires |b| == 4
    ensures FromLe32(Le32(x)) == x
    ensures Le32(FromLe32(b)) == b
  {
    hide Le16, FromLe16;
    Le16Inverse(x % TWO_16, b[..2]);
    Le16Inverse(x / TWO_16, b[2..]);
    assert Le32(x)[..2] == Le16(x % TWO_16) && Le32(x)[2..] == Le16(x / TWO_16);
    assert b == b[..2] + b[2..];
  }

  /** The value that bytes stand for, lowest first. */
  lemma LittleEndian(b: seq<u8>)
    ensures |b| == 2 ==> FromLe16(b) == (b[0] as int) + 256 * (b[1] as int)
    ensures |b| == 4 ==>
              FromLe32(b) == (b[0] as int) + 0x100 * (b[1] as int) + 0x1_0000 * (b[2] as int) + 0x100_0000 * (b[3] as int)
  {
  }

  function ByteSum(b: seq<u8>): nat {
    if |b| == 0 then 0 else ByteSum(b[..|b| - 1]) + b[|b| - 1]
  }

  lemma {:induction false} ByteSumBound(b: seq<u8>)
    ensures ByteSum(b) <= 255 * |b|
  {
    if |b| > 0 { ByteSumBound(b[..|b| - 1]); }
  }

  lemma {:induction false} ByteSumConcat(a: seq<u8>, b: seq<u8>)
    ensures ByteSum(a + b) == ByteSum(a) + ByteSum(b)
  {
    if |b| == 0 {
      assert a + b == a;
    } else {
      ByteSumConcat(a, b[..|b| - 1]);
      assert (a + b)[..|a + b| - 1] == a + b[..|b| - 1];
    }
  }

  /** Replacing one byte moves the sum by exactly the difference. */
  lemma {:induction false} ByteSumUpdate(b: seq<u8>, i: nat, v: u8)
    requires i < |b|
    ensures ByteSum(b[i := v]) == ByteSum(b) - b[i] + v
  {
    ByteSumConcat(b[..i + 1], b[i + 1..]);
    ByteSumConcat(b[i := v][..i + 1], b[i + 1..]);
    assert b == b[..i + 1] + b[i + 1..];
    assert b[i := v] == b[i := v][..i + 1] + b[i + 1..];
    assert b[i := v][..i + 1][..i] == b[..i] == b[..i + 1][..i];
  }

  lemma ByteSumPair(x: u8, y: u8)
    ensures ByteSum([x, y]) == (x as int) + (y as int)
  {
    assert [x, y][..1] == [x] && [x][..0] == [];
    assert ByteSum([x]) == x;
  }

  lemma SliceOfFront(a: seq<u8>, b: seq<u8>, lo: nat, hi: nat)
    requires lo <= hi <= |a|
    ensures (a + b)[lo..hi] == a[lo..hi]
  {
  }
}
