/**
 The allocator of kernel/core/memory.c on one heap array. The free list of a pool is where the
 source puts it: in the first bytes of the pool's own memory.
 */
module Memory {
  import opened Widths
  import opened SystemErrors
  import opened Bitmap
  import opened MemoryPools

  const DONE := SystemError(Code.Ok, System, Low)
  const NULL_POINTER := SystemError(CriticalNull, Safety, Critical)
  const OUT_OF_MEMORY := SystemError(OutOfMemory, Module, High)

  datatype Record = Record(base: nat, blockSize: nat, blockCount: u16, freeCount: u16, allocationCount: u16)

  function Product(blockSize: nat, blockCount: nat): nat { blockSize * blockCount }

  function PoolSize(r: Record): nat { Product(r.blockSize, r.blockCount) }

  /** A zeroed record, or one whose memory, bitmap included, lies within the first `used` bytes of the heap. */
  predicate Placed(r: Record, heapBase: nat, used: nat) {
    r.blockCount > 0 ==>
      && r.blockSize > 0 && r.blockCount <= MAX_BLOCKS
      && heapBase <= r.base && r.base + PoolSize(r) <= heapBase + used && BitmapSize(r.blockCount) <= PoolSize(r)
  }

  predicate Apart(r: Record, q: Record) {
    r.blockCount == 0 || q.blockCount == 0 || r.base + PoolSize(r) <= q.base || q.base + PoolSize(q) <= r.base
  }

  function BitmapBytes(r: Record, heapBase: nat, heap: seq<bv8>): (b: seq<bv8>)
    requires Placed(r, heapBase, |heap|)
    ensures |b| == BitmapSize(r.blockCount)
  {
    if r.blockCount == 0 then [] else heap[r.base - heapBase..][..BitmapSize(r.blockCount)]
  }

  /** The pool that a record describes, with its bitmap read from the heap. */
  function PoolView(r: Record, heapBase: nat, heap: seq<bv8>): Pool
    requires Placed(r, heapBase, |heap|)
  {
    Pool(r.base, r.blockSize, r.blockCount, r.freeCount, r.allocationCount, Bits(BitmapBytes(r, heapBase, heap)))
  }

  predicate AllPlaced(records: seq<Record>, heapBase: nat, used: nat) {
    forall k | 0 <= k < |records| :: Placed(records[k], heapBase, used)
  }

  function Views(records: seq<Record>, heapBase: nat, heap: seq<bv8>): (pools: seq<Pool>)
    requires AllPlaced(records, heapBase, |heap|)
    ensures |pools| == |records|
    ensures forall k | 0 <= k < |records| :: pools[k] == PoolView(records[k], heapBase, heap)
  {
    seq(|records|, k requires 0 <= k < |records| => PoolView(records[k], heapBase, heap))
  }

  /** Pools that lie apart in the used part of the heap, whatever their counters and bits. */
  ghost predicate Arranged(records: seq<Record>, heapBase: nat, heap: seq<bv8>, used: nat) {
    && heapBase > 0 && used <= |heap|
    && AllPlaced(records, heapBase, used) && AllPlaced(records, heapBase, |heap|)
    && (forall j, k | 0 <= j < k < |records| :: Apart(records[j], records[k]))
  }

  lemma UsedInHeap(records: seq<Record>, heapBase: nat, heap: seq<bv8>, used: nat)
    requires Arranged(records, heapBase, heap, used)
    ensures used <= |heap|
  {
  }

  lemma ArrangedShaped(records: seq<Record>, heapBase: nat, heap: seq<bv8>, used: nat)
    requires Arranged(records, heapBase, heap, used)
    ensures AllShaped(Views(records, heapBase, heap))
  {
    hide Bits, Product;
  }

  /** The view of a pool leaves no byte of its bitmap open. */
  lemma ViewDeterminesBitmap(r: Record, heapBase: nat, a: seq<bv8>, b: seq<bv8>)
    requires Placed(r, heapBase, |a|) && Placed(r, heapBase, |b|)
    requires PoolView(r, heapBase, a) == PoolView(r, heapBase, b)
    ensures BitmapBytes(r, heapBase, a) == BitmapBytes(r, heapBase, b)
  {
    BitsInjective(BitmapBytes(r, heapBase, a), BitmapBytes(r, heapBase, b));
  }

  // ---------- effects of a write on the views ----------

  lemma BytesKept(r: Record, heapBase: nat, before: seq<bv8>, after: seq<bv8>, lo: nat, hi: nat)
    requires |before| == |after| && Placed(r, heapBase, |before|)
    requires forall i | 0 <= i < |before| && !(lo <= i < hi) :: after[i] == before[i]
    requires r.blockCount > 0 ==> r.base - heapBase + PoolSize(r) <= lo || hi <= r.base - heapBase
    ensures BitmapBytes(r, heapBase, after) == BitmapBytes(r, heapBase, before)
  {
  }

  /** Pool `k` gets a new record, and all writes stay clear of the memory of the other pools. */
  lemma ReplacePool(rs: seq<Record>, heapBase: nat, before: seq<bv8>, used: nat,
                    k: nat, q: Record, after: seq<bv8>, newUsed: nat, lo: nat, hi: nat)
    requires Arranged(rs, heapBase, before, used) && k < |rs|
    requires |before| == |after| && used <= newUsed <= |after|
    requires forall i | 0 <= i < |before| && !(lo <= i < hi) :: after[i] == before[i]
    requires forall j | 0 <= j < |rs| && j != k && rs[j].blockCount > 0 ::
               rs[j].base - heapBase + PoolSize(rs[j]) <= lo || hi <= rs[j].base - heapBase
    requires Placed(q, heapBase, newUsed) && forall j | 0 <= j < |rs| && j != k :: Apart(rs[j], q) && Apart(q, rs[j])
    requires Placed(q, heapBase, |after|)
    ensures Arranged(rs[k := q], heapBase, after, newUsed)
    ensures Views(rs[k := q], heapBase, after)
            == Views(rs, heapBase, before)[k := PoolView(q, heapBase, after)]
  {
    hide Bits, Product;
    forall j | 0 <= j < |rs| && j != k
      ensures PoolView(rs[j], heapBase, after) == PoolView(rs[j], heapBase, before)
    {
      BytesKept(rs[j], heapBase, before, after, lo, hi);
    }
  }

  /** The heap after a memset with ones. */
  function Filled(heap: seq<bv8>, start: nat, size: nat): (after: seq<bv8>)
    requires start + size <= |heap|
    ensures |after| == |heap|
  {
    heap[..start] + seq(size, i => 0xFF as bv8) + heap[start + size..]
  }

  /** A new pool at the end of the used part of the heap. */
  lemma InstallPool(rs: seq<Record>, heapBase: nat, before: seq<bv8>, used: nat,
                    k: nat, blockSize: nat, blockCount: u16, after: seq<bv8>)
    requires Arranged(rs, heapBase, before, used) && k < |rs|
    requires blockSize > 0 && 0 < blockCount <= MAX_BLOCKS && used + Product(blockSize, blockCount) <= |before|
    requires BitmapSize(blockCount) <= Product(blockSize, blockCount)
    requires after == Filled(before, used, BitmapSize(blockCount))
    ensures var q := Record(heapBase + used, blockSize, blockCount, blockCount, 0);
            && Arranged(rs[k := q], heapBase, after, used + Product(blockSize, blockCount))
            && Views(rs[k := q], heapBase, after)
               == Views(rs, heapBase, before)[k := FreshPool(heapBase + used, blockSize, blockCount)]
  {
    var q := Record(heapBase + used, blockSize, blockCount, blockCount, 0);
    var size := BitmapSize(blockCount);
    assert after[used..][..size] == seq(size, i => 0xFF as bv8);
    assert PoolView(q, heapBase, after) == FreshPool(heapBase + used, blockSize, blockCount) by { AllOnes(size); }
    hide PoolView;
    ReplacePool(rs, heapBase, before, used, k, q, after, used + PoolSize(q), used, used + size);
  }

  /** One bit of one byte set or cleared with its mask. */
  function WithBitAt(heap: seq<bv8>, at: nat, i: nat, bit: bool): (after: seq<bv8>)
    requires at < |heap| && i < 8
    ensures |after| == |heap|
  {
    heap[at := if bit then heap[at] | Mask(i) else heap[at] & !Mask(i)]
  }

  lemma BitInPlace(r: Record, q: Record, heapBase: nat, before: seq<bv8>, i: nat, bit: bool, after: seq<bv8>)
    requires Placed(r, heapBase, |before|) && i < r.blockCount && |before| == |after|
    requires q == r.(freeCount := q.freeCount, allocationCount := q.allocationCount)
    requires 0 <= r.base - heapBase + i / 8 < |before|
    requires after == WithBitAt(before, r.base - heapBase + i / 8, i % 8, bit)
    ensures i < |Bits(BitmapBytes(r, heapBase, before))|
    ensures Bits(BitmapBytes(q, heapBase, after)) == Bits(BitmapBytes(r, heapBase, before))[i := bit]
  {
    hide Bits, Mask, Product;
    var b, c := BitmapBytes(r, heapBase, before), BitmapBytes(q, heapBase, after);
    assert c == b[i / 8 := c[i / 8]];
    if bit { SetInBits(b, i); } else { ClearInBits(b, i); }
  }

  /** One bit of pool `k`'s bitmap changes together with the counters of its record. */
  lemma ChangeBit(rs: seq<Record>, heapBase: nat, before: seq<bv8>, used: nat,
                  k: nat, i: nat, bit: bool, freeCount: u16, allocationCount: u16, after: seq<bv8>)
    requires Arranged(rs, heapBase, before, used) && k < |rs| && i < rs[k].blockCount && |before| == |after|
    requires 0 <= rs[k].base - heapBase + i / 8 < |before|
    requires after == WithBitAt(before, rs[k].base - heapBase + i / 8, i % 8, bit)
    requires i < |Views(rs, heapBase, before)[k].bits|
    ensures var q := rs[k].(freeCount := freeCount, allocationCount := allocationCount);
            && Arranged(rs[k := q], heapBase, after, used)
            && Views(rs[k := q], heapBase, after) == Views(rs, heapBase, before)[
                 k := WithBit(Views(rs, heapBase, before)[k], i, bit, freeCount, allocationCount)]
  {
    hide Mask, Product;
    var q := rs[k].(freeCount := freeCount, allocationCount := allocationCount);
    var off := rs[k].base - heapBase;
    BitInPlace(rs[k], q, heapBase, before, i, bit, after);
    forall j | 0 <= j < |rs| && j != k
      ensures Apart(rs[j], q) && Apart(q, rs[j])
    {
      assert j < k ==> Apart(rs[j], rs[k]);
      assert k < j ==> Apart(rs[k], rs[j]);
    }
    ReplacePool(rs, heapBase, before, used, k, q, after, used, off, off + PoolSize(rs[k]));
  }

  /** The first `n` pools are fresh, the others as before. */
  function Installed(pools: seq<Pool>, start: nat, n: nat): (after: seq<Pool>)
    requires |pools| == POOL_COUNT && n <= POOL_COUNT
    ensures |after| == POOL_COUNT
  {
    FreshPools(start)[..n] + pools[n..]
  }

  lemma InstalledEnds(pools: seq<Pool>, start: nat)
    requires |pools| == POOL_COUNT
    ensures Installed(pools, start, 0) == pools && Installed(pools, start, POOL_COUNT) == FreshPools(start)
  {
    hide FreshPool;
  }

  lemma InstalledStep(pools: seq<Pool>, start: nat, k: nat)
    requires |pools| == POOL_COUNT && k < POOL_COUNT
    ensures Installed(pools, start, k)[k := FreshPool(start + 2048 * k, BlockSizeOf(k), BlockCountOf(k))]
            == Installed(pools, start, k + 1)
  {
    hide FreshPool, BlockSizeOf, BlockCountOf;
  }

  lemma Configured(k: nat)
    requires k < POOL_COUNT
    ensures 0 < BlockSizeOf(k) < TWO_32 && 0 < BlockCountOf(k) <= MAX_BLOCKS
    ensures Product(BlockSizeOf(k), BlockCountOf(k)) == if k == POOL_COUNT - 1 then 4096 else 2048
  {
  }

  lemma RecordOf(rs: seq<Record>, heapBase: nat, heap: seq<bv8>, used: nat, k: nat)
    requires Arranged(rs, heapBase, heap, used) && k < |rs|
    ensures var p := Views(rs, heapBase, heap)[k];
            && p.base == rs[k].base && p.blockSize == rs[k].blockSize && p.blockCount == rs[k].blockCount
            && p.freeCount == rs[k].freeCount && p.allocationCount == rs[k].allocationCount
  {
  }

  lemma BitInHeap(rs: seq<Record>, heapBase: nat, heap: seq<bv8>, used: nat, k: nat, i: nat)
    requires Arranged(rs, heapBase, heap, used) && k < |rs| && i < rs[k].blockCount
    ensures i / 8 % TWO_8 == i / 8
    ensures 0 <= rs[k].base - heapBase && rs[k].base - heapBase + i / 8 < |heap|
    ensures i < |Views(rs, heapBase, heap)[k].bits|
    ensures heap[rs[k].base - heapBase + i / 8] & Mask(i % 8) != 0 <==> Views(rs, heapBase, heap)[k].bits[i]
  {
    hide Product, Mask;
    assert heap[rs[k].base - heapBase + i / 8] == BitmapBytes(rs[k], heapBase, heap)[i / 8];
  }

  lemma ByteInPlace(bytes: seq<bv8>, j: nat, x: bv8)
    requires j < |bytes|
    ensures Bits(bytes[j := x]) == WithByte(Bits(bytes), j, x)
  {
  }

  /** A write to one byte of the heap shows in the free list that the byte belongs to, and in no other. */
  lemma WriteInHeap(rs: seq<Record>, heapBase: nat, heap: seq<bv8>, used: nat, i: nat, x: bv8)
    requires Arranged(rs, heapBase, heap, used) && i < |heap|
    ensures Arranged(rs, heapBase, heap[i := x], used)
    ensures Views(rs, heapBase, heap[i := x]) == AfterWrite(Views(rs, heapBase, heap), heapBase + i, x)
  {
    hide Bits, Product, WithByte;
    var after := heap[i := x];
    forall k | 0 <= k < |rs|
      ensures PoolView(rs[k], heapBase, after) == Written(PoolView(rs[k], heapBase, heap), heapBase + i, x)
    {
      var b, c := BitmapBytes(rs[k], heapBase, heap), BitmapBytes(rs[k], heapBase, after);
      if InBitmap(PoolView(rs[k], heapBase, heap), heapBase + i) {
        var j := heapBase + i - rs[k].base;
        assert c == b[j := x];
        ByteInPlace(b, j, x);
      } else {
        assert c == b;
      }
    }
  }

  lemma AtLeastOnce(a: nat, b: nat)
    requires a > 0
    ensures b <= a * b
  {
  }

  lemma BitmapFits(blockSize: nat, blockCount: nat)
    requires blockSize > 0 && blockCount > 0
    ensures BitmapSize(blockCount) <= Product(blockSize, blockCount)
  {
    AtLeastOnce(blockSize, blockCount);
  }

  class Kernel {
    const heapBase: nat
    const heap: array<bv8>
    const records: array<Record>
    var used: nat

    ghost predicate Valid()
      reads this, heap, records
    {
      heap.Length == HEAP_SIZE && records.Length == POOL_COUNT && Arranged(records[..], heapBase, heap[..], used)
    }

    function Pools(): (pools: seq<Pool>)
      requires Valid()
      reads this, heap, records
      ensures |pools| == POOL_COUNT && AllShaped(pools)
    {
      ArrangedShaped(records[..], heapBase, heap[..], used);
      Views(records[..], heapBase, heap[..])
    }

    /** The zeroed static storage before memory_init; `base` is where the linker put the heap. */
    constructor (base: nat)
      requires base > 0
      ensures Valid() && fresh(heap) && fresh(records)
      ensures heapBase == base && used == 0
      ensures forall k | 0 <= k < POOL_COUNT :: Pools()[k] == Pool(0, 0, 0, 0, 0, [])
    {
      heapBase := base;
      heap := new bv8[HEAP_SIZE](i => 0);
      records := new Record[POOL_COUNT](i => Record(0, 0, 0, 0, 0));
      used := 0;
    }

    /** The memset over the free list of a new pool. */
    method MarkAllFree(start: nat, size: nat)
      requires start + size <= heap.Length
      modifies heap
      ensures heap[..] == Filled(old(heap[..]), start, size)
    {
      for i := 0 to size
        invariant forall j | start <= j < start + i :: heap[j] == 0xFF
        invariant forall j | 0 <= j < heap.Length && !(start <= j < start + size) :: heap[j] == old(heap[j])
      {
        heap[start + i] := 0xFF;
      }
    }

    /** The part of memory_pool_init behind its checks. */
    method PlacePool(k: nat, blockSize: u64, blockCount: u16, poolSize: nat)
      requires Valid() && k < POOL_COUNT && blockSize > 0 && 0 < blockCount <= MAX_BLOCKS
      requires poolSize == Product(blockSize, blockCount) && used + poolSize <= HEAP_SIZE
      modifies this, heap, records
      ensures Valid()
      ensures used == old(used) + poolSize
      ensures Pools() == old(Pools())[k := FreshPool(heapBase + old(used), blockSize, blockCount)]
    {
      hide Arranged, Views, FreshPool, BitmapSize, AllShaped, Filled, Product;
      BitmapFits(blockSize, blockCount);
      MarkAllFree(used, BitmapSize(blockCount));
      InstallPool(records[..], heapBase, old(heap[..]), used, k, blockSize, blockCount, heap[..]);
      var r := Record(heapBase + used, blockSize, blockCount, blockCount, 0);
      records[k] := r;
      assert records[..] == old(records[..])[k := r];
      used := used + poolSize;
    }

    /** memory_pool_init; `blockCount` may not exceed what an 8-bit byte index reaches, nor the size a size_t. */
    method InitPool(k: nat, blockSize: u64, blockCount: u16) returns (error: SystemError)
      requires Valid() && k < POOL_COUNT && blockCount <= MAX_BLOCKS
      requires used + Product(blockSize, blockCount) < TWO_64
      modifies this, heap, records
      ensures Valid()
      ensures error == if blockSize == 0 || blockCount == 0 then NULL_POINTER
                       else if old(used) + Product(blockSize, blockCount) > HEAP_SIZE then OUT_OF_MEMORY else DONE
      ensures error != DONE ==> Pools() == old(Pools()) && used == old(used)
      ensures error == DONE ==> used == old(used) + Product(blockSize, blockCount)
      ensures error == DONE ==>
                Pools() == old(Pools())[k := FreshPool(heapBase + old(used), blockSize, blockCount)]
    {
      if blockSize == 0 || blockCount == 0 { return NULL_POINTER; }
      var poolSize := Product(blockSize, blockCount);
      if used + poolSize > HEAP_SIZE { return OUT_OF_MEMORY; }
      hide Arranged, Views, FreshPool, AllShaped;
      PlacePool(k, blockSize, blockCount, poolSize);
      return DONE;
    }

    /**
     memory_init. On success all eight pools are fresh and lie one behind the other; on failure those
     that did fit are, and the others are as they were.
     */
    method Init() returns (error: SystemError)
      requires Valid()
      modifies this, heap, records
      ensures Valid()
      ensures error == if old(used) + 18_432 <= 0x10_0000 then DONE else OUT_OF_MEMORY
      ensures error == DONE ==> used == old(used) + POOLS_SIZE && Pools() == FreshPools(heapBase + old(used))
      ensures error != DONE ==> exists n | 0 <= n < POOL_COUNT ::
                Pools() == Installed(old(Pools()), heapBase + old(used), n) && used == old(used) + 2048 * n
    {
      hide Arranged, Views, AllShaped, FreshPool, FreshPools, BlockSizeOf, BlockCountOf, Product, Installed;
      ghost var before, start := Pools(), heapBase + used;
      UsedInHeap(records[..], heapBase, heap[..], used);
      InstalledEnds(before, start);
      for k := 0 to POOL_COUNT
        invariant Valid() && used <= HEAP_SIZE
        invariant used == old(used) + 2048 * k + if k == POOL_COUNT then 2048 else 0
        invariant Pools() == Installed(before, start, k)
      {
        Configured(k);
        InstalledStep(before, start, k);
        error := InitPool(k, BlockSizeOf(k), BlockCountOf(k));
        if error != DONE { return; }
      }
      error := DONE;
    }

    /** The bit test of the allocation loop, with the source's 8-bit byte index. */
    method IsFree(k: nat, i: nat) returns (free: bool)
      requires Valid() && k < POOL_COUNT && i < Pools()[k].blockCount
      ensures i < |Pools()[k].bits| && free == Pools()[k].bits[i]
    {
      hide Arranged, Views, Mask, Bits;
      RecordOf(records[..], heapBase, heap[..], used, k);
      BitInHeap(records[..], heapBase, heap[..], used, k, i);
      var byteIndex := i / 8 % TWO_8;
      free := heap[records[k].base - heapBase + byteIndex] & Mask(i % 8) != 0;
    }

    /** The loop of memory_pool_alloc over the blocks of a pool. */
    method FindFree(k: nat) returns (i: nat)
      requires Valid() && k < POOL_COUNT
      ensures Pools()[k].blockCount <= |Pools()[k].bits|
      ensures i == FirstFree(Pools()[k].bits, Pools()[k].blockCount)
    {
      hide Arranged, Views;
      ghost var p := Pools()[k];
      RecordOf(records[..], heapBase, heap[..], used, k);
      i := 0;
      while i < records[k].blockCount
        invariant i <= p.blockCount
        invariant forall j | 0 <= j < i :: !p.bits[j]
      {
        var free := IsFree(k, i);
        if free { break; }
        i := i + 1;
      }
      FirstFreeUnique(p.bits, p.blockCount, i);
    }

    /** The masked write of one byte. */
    method MaskBit(at: nat, i: nat, bit: bool)
      requires at < heap.Length && i < 8
      modifies heap
      ensures heap[..] == WithBitAt(old(heap[..]), at, i, bit)
    {
      if bit { heap[at] := heap[at] | Mask(i); } else { heap[at] := heap[at] & !Mask(i); }
    }

    /** Writes one bit of pool `k`'s free list and its two counters. */
    method WriteBit(k: nat, i: nat, bit: bool, freeCount: u16, allocationCount: u16)
      requires Valid() && k < POOL_COUNT && i < Pools()[k].blockCount <= |Pools()[k].bits|
      modifies heap, records
      ensures Valid()
      ensures Pools() == old(Pools())[k := WithBit(old(Pools())[k], i, bit, freeCount, allocationCount)]
    {
      hide Arranged, Views, AllShaped, Mask, WithBit, WithBitAt;
      RecordOf(records[..], heapBase, heap[..], used, k);
      BitInHeap(records[..], heapBase, heap[..], used, k, i);
      ghost var rs, before := records[..], heap[..];
      var byteIndex := i / 8 % TWO_8;
      MaskBit(records[k].base - heapBase + byteIndex, i % 8, bit);
      ChangeBit(rs, heapBase, before, used, k, i, bit, freeCount, allocationCount, heap[..]);
      var r := records[k].(freeCount := freeCount, allocationCount := allocationCount);
      records[k] := r;
      assert records[..] == rs[k := r];
    }

    /** memory_pool_alloc */
    method AllocFromPool(k: nat) returns (ptr: nat)
      requires Valid() && k < POOL_COUNT
      modifies heap, records
      ensures Valid()
      ensures ptr == PoolAlloc(old(Pools())[k]).1
      ensures Pools() == old(Pools())[k := PoolAlloc(old(Pools())[k]).0]
    {
      hide Arranged, Views, WithBit, BlockAddress, FirstFree;
      ghost var p := Pools()[k];
      RecordOf(records[..], heapBase, heap[..], used, k);
      ptr := 0;
      if records[k].freeCount == 0 { return; }
      var i := FindFree(k);
      if i < records[k].blockCount {
        ptr := BlockAddress(records[k].base, i, records[k].blockSize);
        WriteBit(k, i, false, records[k].freeCount - 1, Wrap16(records[k].allocationCount + 1));
      }
    }

    /** memory_pool_free, on any pointer into the pool; the block need not be in use. */
    method FreeInPool(k: nat, ptr: nat)
      requires Valid() && k < POOL_COUNT && InPool(Pools()[k], ptr)
      modifies heap, records
      ensures Valid()
      ensures Pools() == (PoolFreeShaped(old(Pools())[k], ptr); old(Pools())[k := PoolFree(old(Pools())[k], ptr)])
    {
      hide Arranged, Views, InPool, PoolFree, BlockOf, WithBit;
      ghost var p := Pools()[k];
      PoolFreeShaped(p, ptr);
      RecordOf(records[..], heapBase, heap[..], used, k);
      var blockIndex := Wrap16((ptr - records[k].base) / records[k].blockSize);
      if blockIndex < records[k].blockCount {
        WriteBit(k, blockIndex, true, Wrap16(records[k].freeCount + 1), Wrap16(records[k].allocationCount - 1));
      }
    }

    /** memory_alloc */
    method Alloc(size: nat) returns (ptr: nat)
      requires Valid()
      modifies heap, records
      ensures Valid()
      ensures (Pools(), ptr) == MemoryPools.Alloc(old(Pools()), size)
    {
      hide Arranged, Views, PoolAlloc, MemoryPools.Alloc, Shaped, Serves;
      ghost var pools := Pools();
      if size == 0 {
        AllocRefused(pools, size);
        return 0;
      }
      for i := 0 to POOL_COUNT
        invariant Valid() && Pools() == pools
        invariant forall j | 0 <= j < i :: !Serves(pools[j], size)
      {
        RecordOf(records[..], heapBase, heap[..], used, i);
        PoolTried(pools, i, size);
        if size <= records[i].blockSize {
          ptr := AllocFromPool(i);
          if ptr != 0 {
            AllocServed(pools, size, i);
            return;
          }
        }
      }
      AllocRefused(pools, size);
      return 0;
    }

    /** memory_free, on any pointer. */
    method Free(ptr: nat)
      requires Valid()
      modifies heap, records
      ensures Valid()
      ensures Pools() == MemoryPools.Free(old(Pools()), ptr)
    {
      hide Arranged, Views, PoolFree, BlockOf;
      ghost var pools := Pools();
      if ptr == 0 { return; }
      for i := 0 to POOL_COUNT
        invariant Valid() && Pools() == pools
        invariant forall j | 0 <= j < i :: !InPool(pools[j], ptr)
      {
        RecordOf(records[..], heapBase, heap[..], used, i);
        var poolStart := records[i].base;
        var poolEnd := poolStart + records[i].blockSize * records[i].blockCount;
        if poolStart <= ptr < poolEnd {
          OwnerUnique(pools, ptr, 0, i);
          FreeInPool(i, ptr);
          return;
        }
      }
      OwnerUnique(pools, ptr, 0, POOL_COUNT);
    }

    /** A program writes byte `i` of the heap, through whatever pointer it has. */
    method Write(i: nat, x: bv8)
      requires Valid() && i < HEAP_SIZE
      modifies heap
      ensures Valid()
      ensures Pools() == AfterWrite(old(Pools()), heapBase + i, x)
    {
      ghost var before := heap[..];
      heap[i] := x;
      assert heap[..] == before[i := x];
      WriteInHeap(records[..], heapBase, before, used, i, x);
    }
  }
}
