/**
 Unsigned machine integers of the source, as subset types of `int`.
 Every place where the source's arithmetic can wrap goes through one of the Wrap functions.
 */
module Widths {
  const TWO_8 := 0x100
  const TWO_16 := 0x1_0000
  const TWO_32 := 0x1_0000_0000
  const TWO_64 := 0x1_0000_0000_0000_0000

  type u8 = x: int | 0 <= x < TWO_8
  type u16 = x: int | 0 <= x < TWO_16
  type u32 = x: int | 0 <= x < TWO_32
  type u64 = x: int | 0 <= x < TWO_64

  function Wrap16(x: int): u16 { x % TWO_16 }

  function Wrap32(x: int): u32 { x % TWO_32 }

  function Wrap64(x: int): u64 { x % TWO_64 }

  /** A pointer or a lookup that may be absent. */
  datatype Option<+T> = None | Some(value: T)

  /** A counter that wraps at every step ends where one that wraps at the end does. */
  lemma Wrap32Next(x: int)
    ensures Wrap32(Wrap32(x) + 1) == Wrap32(x + 1)
  {
  }
}
