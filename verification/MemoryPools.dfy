/**
 The size-class pools of kernel/core/memory.c as values: what an allocation and a free do to a pool
 and to the array of pools. Addresses are numbers, and 0 is the null pointer.
 */
module MemoryPools {
  import opened Widths
  import opened Bitmap

  const POOL_COUNT: nat := 8
  const HEAP_SIZE: nat := 0x10_0000
  const MAX_BLOCKS: nat := 2048
  const POOLS_SIZE: nat := 2048 * 9

  /** `bits` are the bits of the free list; bit i is set when block i is free. */
  datatype Pool = Pool(
    base: nat,
    blockSize: nat,
    blockCount: nat,
    freeCount: nat,
    allocationCount: nat,
    bits: seq<bool>)

  function BitmapSize(blockCount: nat): nat { (blockCount + 7) / 8 }

  function CountFree(bits: seq<bool>, n: nat): (c: nat)
    requires n <= |bits|
    ensures c <= n
  {
    if n == 0 then 0 else CountFree(bits, n - 1) + if bits[n - 1] then 1 else 0
  }

  /** The number of the first free block, or `n` if there is none. */
  function FirstFree(bits: seq<bool>, n: nat): (i: nat)
    requires n <= |bits|
    ensures i <= n && (i < n ==> bits[i])
    ensures forall j | 0 <= j < i :: !bits[j]
  {
    if n == 0 then 0
    else
      var f := FirstFree(bits, n - 1);
      if f < n - 1 || bits[n - 1] then f else n
  }

  lemma FirstFreeUnique(bits: seq<bool>, n: nat, i: nat)
    requires n <= |bits| && i <= n && (i < n ==> bits[i])
    requires forall j | 0 <= j < i :: !bits[j]
    ensures FirstFree(bits, n) == i
  {
  }

  lemma {:induction false} CountSame(a: seq<bool>, b: seq<bool>, n: nat)
    requires n <= |a| && n <= |b| && forall i | 0 <= i < n :: a[i] == b[i]
    ensures CountFree(a, n) == CountFree(b, n)
  {
    if n > 0 { CountSame(a, b, n - 1); }
  }

  lemma {:induction false} CountUpdate(bits: seq<bool>, n: nat, i: nat, bit: bool)
    requires i < n <= |bits|
    ensures CountFree(bits[i := bit], n)
            == CountFree(bits, n) + (if bit then 1 else 0) - (if bits[i] then 1 else 0)
  {
    if i < n - 1 {
      CountUpdate(bits, n - 1, i, bit);
    } else {
      CountSame(bits, bits[i := bit], n - 1);
    }
  }

  /** A positive free count finds a free block, and a free block makes the count positive. */
  lemma {:induction false} CountFindsFree(bits: seq<bool>, n: nat)
    requires n <= |bits|
    ensures CountFree(bits, n) == 0 <==> FirstFree(bits, n) == n
  {
    if n > 0 { CountFindsFree(bits, n - 1); }
  }

  lemma {:induction false} CountAll(bits: seq<bool>, n: nat)
    requires n <= |bits| && forall i | 0 <= i < n :: bits[i]
    ensures CountFree(bits, n) == n
  {
    if n > 0 { CountAll(bits, n - 1); }
  }

  /** A zeroed pool, or one of a size that the 8-bit byte index can handle; whatever its counters and bits. */
  predicate Shaped(p: Pool) {
    && p.blockCount <= MAX_BLOCKS
    && |p.bits| == 8 * BitmapSize(p.blockCount)
    && (p.blockCount > 0 ==> p.base > 0 && p.blockSize > 0)
  }

  /** The counters agree with the bitmap, whose spare bits are set. */
  ghost predicate Consistent(p: Pool) {
    && Shaped(p)
    && p.freeCount == CountFree(p.bits, p.blockCount)
    && p.allocationCount == p.blockCount - p.freeCount
    && (forall i | p.blockCount <= i < |p.bits| :: p.bits[i])
  }

  function End(p: Pool): nat { p.base + p.blockSize * p.blockCount }

  function BlockAddress(base: nat, i: nat, blockSize: nat): nat { base + i * blockSize }

  function Address(p: Pool, i: nat): nat { BlockAddress(p.base, i, p.blockSize) }

  predicate InPool(p: Pool, ptr: nat) { p.base <= ptr < End(p) }

  function WithBit(p: Pool, i: nat, bit: bool, freeCount: u16, allocationCount: u16): Pool
    requires i < |p.bits|
  {
    p.(bits := p.bits[i := bit], freeCount := freeCount, allocationCount := allocationCount)
  }

  /** memory_pool_alloc; its last branch is the return behind the loop. */
  function PoolAlloc(p: Pool): (result: (Pool, nat))
    requires p.blockCount <= |p.bits|
  {
    if p.freeCount == 0 then (p, 0)
    else
      var i := FirstFree(p.bits, p.blockCount);
      if i < p.blockCount
      then (WithBit(p, i, false, Wrap16(p.freeCount - 1), Wrap16(p.allocationCount + 1)), Address(p, i))
      else (p, 0)
  }

  function BlockOf(p: Pool, ptr: nat): u16
    requires p.base <= ptr && p.blockSize > 0
  {
    Wrap16((ptr - p.base) / p.blockSize)
  }

  /** The pointer lies in a block that is allocated. */
  predicate InUse(p: Pool, ptr: nat) {
    InPool(p, ptr) && p.blockSize > 0 && BlockOf(p, ptr) < |p.bits| && !p.bits[BlockOf(p, ptr)]
  }

  /** memory_pool_free, for a pointer not below the pool. */
  function PoolFree(p: Pool, ptr: nat): (q: Pool)
    requires p.base <= ptr && p.blockSize > 0 && p.blockCount <= |p.bits|
  {
    if ptr == 0 || BlockOf(p, ptr) >= p.blockCount then p
    else WithBit(p, BlockOf(p, ptr), true, Wrap16(p.freeCount + 1), Wrap16(p.allocationCount - 1))
  }

  lemma InPoolHasSize(p: Pool, ptr: nat)
    requires InPool(p, ptr)
    ensures p.blockSize > 0 && p.blockCount > 0
  {
  }

  /** With the counters right, a pool with a free block always yields one: the loop never runs out. */
  lemma PoolAllocSucceeds(p: Pool)
    requires Consistent(p)
    ensures p.freeCount > 0 <==> FirstFree(p.bits, p.blockCount) < p.blockCount
    ensures PoolAlloc(p).1 == 0 <==> p.freeCount == 0
    ensures p.freeCount == 0 ==> PoolAlloc(p).0 == p
  {
    hide CountFree;
    CountFindsFree(p.bits, p.blockCount);
  }

  /** Counters that agree are far from wrapping. */
  lemma CountersAfterAlloc(p: Pool)
    requires Consistent(p)
    ensures p.freeCount > 0 ==> Wrap16(p.freeCount - 1) == p.freeCount - 1
    ensures Wrap16(p.allocationCount + 1) == p.allocationCount + 1
    ensures p.blockCount <= |p.bits|
  {
    hide CountFree;
  }

  lemma PoolAllocConsistent(p: Pool)
    requires Consistent(p)
    ensures Consistent(PoolAlloc(p).0)
  {
    hide CountFree, BlockAddress, Wrap16, FirstFree, BitmapSize;
    PoolAllocSucceeds(p);
    CountersAfterAlloc(p);
    if p.freeCount > 0 { CountUpdate(p.bits, p.blockCount, FirstFree(p.bits, p.blockCount), false); }
  }

  lemma QuotientBound(x: nat, d: nat, n: nat)
    requires d > 0 && x < d * n
    ensures x / d < n
  {
  }

  lemma BlockOfBound(p: Pool, ptr: nat)
    requires InPool(p, ptr) && p.blockCount <= MAX_BLOCKS
    ensures p.blockSize > 0 && BlockOf(p, ptr) == (ptr - p.base) / p.blockSize < p.blockCount
  {
    InPoolHasSize(p, ptr);
    QuotientBound(ptr - p.base, p.blockSize, p.blockCount);
  }

  lemma Scale(a: nat, b: nat, d: nat)
    requires a <= b
    ensures d * a <= d * b
  {
  }

  /** Counters that agree are far from wrapping, except that the allocation count may be 0. */
  lemma CountersAfterFree(p: Pool)
    requires Consistent(p)
    ensures Wrap16(p.freeCount + 1) == p.freeCount + 1
    ensures p.allocationCount > 0 ==> Wrap16(p.allocationCount - 1) == p.allocationCount - 1
    ensures p.blockCount <= |p.bits|
  {
    hide CountFree;
  }

  lemma FreeBit(p: Pool, i: nat)
    requires Consistent(p) && i < p.blockCount
    ensures Consistent(WithBit(p, i, true, Wrap16(p.freeCount + 1), Wrap16(p.allocationCount - 1))) <==> !p.bits[i]
  {
    hide CountFree, Wrap16, BitmapSize;
    CountersAfterFree(p);
    CountUpdate(p.bits, p.blockCount, i, true);
    if !p.bits[i] {
      assert CountFree(p.bits[i := true], p.blockCount) == p.freeCount + 1;
    } else {
      assert CountFree(p.bits[i := true], p.blockCount) == p.freeCount;
    }
  }

  /** Freeing keeps the counters right exactly when it frees a block that is in use. */
  lemma PoolFreeConsistent(p: Pool, ptr: nat)
    requires Consistent(p) && InPool(p, ptr)
    ensures p.blockSize > 0 && BlockOf(p, ptr) < p.blockCount
    ensures Consistent(PoolFree(p, ptr)) <==> InUse(p, ptr)
  {
    hide BlockOf, CountFree;
    BlockOfBound(p, ptr);
    FreeBit(p, BlockOf(p, ptr));
  }

  lemma PoolAllocTakes(p: Pool)
    requires Consistent(p) && p.freeCount > 0
    ensures FirstFree(p.bits, p.blockCount) < p.blockCount <= |p.bits|
    ensures var q := WithBit(p, FirstFree(p.bits, p.blockCount), false, p.freeCount - 1, Wrap16(p.allocationCount + 1));
            Consistent(q) && PoolAlloc(p) == (q, BlockAddress(p.base, FirstFree(p.bits, p.blockCount), p.blockSize))
  {
    hide CountFree, BlockAddress;
    PoolAllocSucceeds(p);
    PoolAllocConsistent(p);
  }

  /** An allocation from any pool, its counters right or wrong, takes the first block with a set bit or nothing. */
  lemma PoolAllocShaped(p: Pool)
    requires Shaped(p)
    ensures Shaped(PoolAlloc(p).0)
    ensures PoolAlloc(p).1 == 0 ==> PoolAlloc(p).0 == p
    ensures PoolAlloc(p).1 != 0 <==> p.freeCount > 0 && FirstFree(p.bits, p.blockCount) < p.blockCount
    ensures PoolAlloc(p).1 != 0 ==> PoolAlloc(p).1 == Address(p, FirstFree(p.bits, p.blockCount))
  {
  }

  lemma BlocksHaveBits(n: nat)
    ensures n <= 8 * BitmapSize(n)
  {
  }

  lemma BlockOfIs(p: Pool, ptr: nat)
    requires p.base <= ptr && p.blockSize > 0
    ensures BlockOf(p, ptr) == Wrap16((ptr - p.base) / p.blockSize)
  {
  }

  lemma WithBitShaped(p: Pool, i: nat, bit: bool, freeCount: u16, allocationCount: u16)
    requires Shaped(p) && i < |p.bits|
    ensures Shaped(WithBit(p, i, bit, freeCount, allocationCount))
  {
  }

  /** A free of any pointer into a pool sets the bit of its block and moves the counters. */
  lemma PoolFreeShaped(p: Pool, ptr: nat)
    requires Shaped(p) && InPool(p, ptr)
    ensures p.blockSize > 0 && ptr != 0
    ensures BlockOf(p, ptr) == Wrap16((ptr - p.base) / p.blockSize) < p.blockCount <= |p.bits|
    ensures PoolFree(p, ptr)
            == WithBit(p, BlockOf(p, ptr), true, Wrap16(p.freeCount + 1), Wrap16(p.allocationCount - 1))
    ensures Shaped(PoolFree(p, ptr))
  {
    hide BlockOf, BitmapSize, WithBit;
    InPoolHasSize(p, ptr);
    BlockOfBound(p, ptr);
    BlocksHaveBits(p.blockCount);
    BlockOfIs(p, ptr);
    WithBitShaped(p, BlockOf(p, ptr), true, Wrap16(p.freeCount + 1), Wrap16(p.allocationCount - 1));
  }

  // ---------- the array of pools ----------

  predicate AllShaped(pools: seq<Pool>) {
    forall k | 0 <= k < |pools| :: Shaped(pools[k])
  }

  ghost predicate AllConsistent(pools: seq<Pool>) {
    forall k | 0 <= k < |pools| :: Consistent(pools[k])
  }

  /** The pool is large enough for the size, and an allocation from it succeeds. */
  predicate Serves(p: Pool, size: nat)
    requires Shaped(p)
  {
    size <= p.blockSize && PoolAlloc(p).1 != 0
  }

  /** The first pool from `k` on that serves the size, or the number of pools. */
  function Serving(pools: seq<Pool>, size: nat, k: nat): (j: nat)
    requires AllShaped(pools) && k <= |pools|
    ensures k <= j <= |pools|
    ensures j < |pools| ==> Serves(pools[j], size)
    ensures forall i | k <= i < j :: !Serves(pools[i], size)
    decreases |pools| - k
  {
    if k == |pools| || Serves(pools[k], size) then k else Serving(pools, size, k + 1)
  }

  lemma ServingUnique(pools: seq<Pool>, size: nat, k: nat, j: nat)
    requires AllShaped(pools) && k <= j <= |pools|
    requires j < |pools| ==> Serves(pools[j], size)
    requires forall i | k <= i < j :: !Serves(pools[i], size)
    ensures Serving(pools, size, k) == j
    decreases j - k
  {
  }

  /** memory_alloc */
  function Alloc(pools: seq<Pool>, size: nat): (result: (seq<Pool>, nat))
    requires AllShaped(pools)
    ensures |result.0| == |pools|
  {
    var k := Serving(pools, size, 0);
    if size == 0 || k == |pools| then (pools, 0)
    else (pools[k := PoolAlloc(pools[k]).0], PoolAlloc(pools[k]).1)
  }

  /** Trying a pool that does not serve changes nothing. */
  lemma PoolTried(pools: seq<Pool>, i: nat, size: nat)
    requires AllShaped(pools) && i < |pools|
    ensures Serves(pools[i], size) <==> size <= pools[i].blockSize && PoolAlloc(pools[i]).1 != 0
    ensures PoolAlloc(pools[i]).1 == 0 ==> pools[i := PoolAlloc(pools[i]).0] == pools
  {
    hide PoolAlloc;
    PoolAllocShaped(pools[i]);
  }

  /** Pool `j` is the first that serves: it gives the block. */
  lemma AllocServed(pools: seq<Pool>, size: nat, j: nat)
    requires AllShaped(pools) && size != 0 && j < |pools| && Serves(pools[j], size)
    requires forall i | 0 <= i < j :: !Serves(pools[i], size)
    ensures Alloc(pools, size) == (pools[j := PoolAlloc(pools[j]).0], PoolAlloc(pools[j]).1)
  {
    hide Serves, PoolAlloc;
    ServingUnique(pools, size, 0, j);
  }

  lemma AllocRefused(pools: seq<Pool>, size: nat)
    requires AllShaped(pools) && (size == 0 || forall i | 0 <= i < |pools| :: !Serves(pools[i], size))
    ensures Alloc(pools, size) == (pools, 0)
  {
    hide Serves, PoolAlloc;
    if size != 0 { ServingUnique(pools, size, 0, |pools|); }
  }

  /** The first pool from `k` on whose range holds the pointer, or the number of pools. */
  function Owner(pools: seq<Pool>, ptr: nat, k: nat): (j: nat)
    requires k <= |pools|
    ensures k <= j <= |pools|
    ensures j < |pools| ==> InPool(pools[j], ptr)
    ensures forall i | k <= i < j :: !InPool(pools[i], ptr)
    decreases |pools| - k
  {
    if k == |pools| || InPool(pools[k], ptr) then k else Owner(pools, ptr, k + 1)
  }

  lemma ServesWhenConsistent(p: Pool, size: nat)
    requires Consistent(p)
    ensures Serves(p, size) <==> size <= p.blockSize && p.freeCount > 0
  {
    hide CountFree, PoolAlloc;
    PoolAllocSucceeds(p);
  }

  lemma AllocsSucceed(pools: seq<Pool>, size: nat)
    requires AllConsistent(pools)
    ensures AllShaped(pools)
    ensures forall k | 0 <= k < |pools| :: Serves(pools[k], size) <==> size <= pools[k].blockSize && pools[k].freeCount > 0
  {
    hide Serves;
    assert AllShaped(pools);
    forall k | 0 <= k < |pools|
      ensures Serves(pools[k], size) <==> size <= pools[k].blockSize && pools[k].freeCount > 0
    {
      ServesWhenConsistent(pools[k], size);
    }
  }

  lemma OwnerUnique(pools: seq<Pool>, ptr: nat, k: nat, j: nat)
    requires k <= j <= |pools| && (j < |pools| ==> InPool(pools[j], ptr))
    requires forall i | k <= i < j :: !InPool(pools[i], ptr)
    ensures Owner(pools, ptr, k) == j
    decreases j - k
  {
  }

  /** memory_free */
  function Free(pools: seq<Pool>, ptr: nat): (after: seq<Pool>)
    requires AllShaped(pools)
    ensures |after| == |pools|
  {
    var k := Owner(pools, ptr, 0);
    if ptr == 0 || k == |pools| then pools
    else
      InPoolHasSize(pools[k], ptr);
      pools[k := PoolFree(pools[k], ptr)]
  }

  // ---------- writes of programs ----------

  /** The address is that of a byte of the pool's free list. */
  predicate InBitmap(p: Pool, at: nat) { p.base <= at < p.base + BitmapSize(p.blockCount) }

  /** Byte `j` of the free list holds these eight bits. */
  predicate ByteIs(bits: seq<bool>, j: nat, x: bv8)
    requires 8 * j + 8 <= |bits|
  {
    forall b: nat | b < 8 :: bits[8 * j + b] == BitSet(x, b)
  }

  function WithByte(bits: seq<bool>, j: nat, x: bv8): (after: seq<bool>)
    ensures |after| == |bits|
  {
    seq(|bits|, i requires 0 <= i < |bits| => if i / 8 == j then BitSet(x, i % 8) else bits[i])
  }

  lemma WithByteSameIff(bits: seq<bool>, j: nat, x: bv8)
    requires 8 * j + 8 <= |bits|
    ensures WithByte(bits, j, x) == bits <==> ByteIs(bits, j, x)
  {
    hide BitSet;
    var after := WithByte(bits, j, x);
    if after == bits {
      forall b: nat | b < 8
        ensures bits[8 * j + b] == BitSet(x, b)
      {
        assert after[8 * j + b] == BitSet(x, b);
      }
    } else {
      var i :| 0 <= i < |bits| && after[i] != bits[i];
      assert bits[8 * j + i % 8] != BitSet(x, i % 8);
    }
  }

  /** What a write of one byte to the heap does to a pool: its memory starts with its free list. */
  function Written(p: Pool, at: nat, x: bv8): (q: Pool) {
    if InBitmap(p, at) then p.(bits := WithByte(p.bits, at - p.base, x)) else p
  }

  function AfterWrite(pools: seq<Pool>, at: nat, x: bv8): (after: seq<Pool>)
    ensures |after| == |pools|
  {
    seq(|pools|, k requires 0 <= k < |pools| => Written(pools[k], at, x))
  }

  /** The write hits no free list, or puts back the byte that is there. */
  ghost predicate Harmless(pools: seq<Pool>, at: nat, x: bv8)
    requires AllShaped(pools)
  {
    forall k | 0 <= k < |pools| && InBitmap(pools[k], at) :: ByteIs(pools[k].bits, at - pools[k].base, x)
  }

  lemma HarmlessIff(pools: seq<Pool>, at: nat, x: bv8)
    requires AllShaped(pools)
    ensures AfterWrite(pools, at, x) == pools <==> Harmless(pools, at, x)
  {
    hide WithByte, ByteIs;
    forall k | 0 <= k < |pools| && InBitmap(pools[k], at)
      ensures AfterWrite(pools, at, x)[k] == pools[k] <==> ByteIs(pools[k].bits, at - pools[k].base, x)
    {
      WithByteSameIff(pools[k].bits, at - pools[k].base, x);
    }
  }

  // ---------- the configured layout ----------

  function BlockSizeOf(k: nat): nat
    requires k < POOL_COUNT
  {
    [32, 64, 128, 256, 512, 1024, 2048, 4096][k]
  }

  function BlockCountOf(k: nat): nat
    requires k < POOL_COUNT
  {
    [64, 32, 16, 8, 4, 2, 1, 1][k]
  }

  function FreshPool(base: nat, blockSize: nat, blockCount: nat): Pool {
    Pool(base, blockSize, blockCount, blockCount, 0, seq(8 * BitmapSize(blockCount), i => true))
  }

  /** All pools but the last take 2048 bytes. */
  function FreshPools(start: nat): (pools: seq<Pool>)
    ensures |pools| == POOL_COUNT
  {
    seq(POOL_COUNT, k requires 0 <= k < POOL_COUNT => FreshPool(start + 2048 * k, BlockSizeOf(k), BlockCountOf(k)))
  }
}
