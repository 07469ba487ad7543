/**
 What the allocator guarantees over whole runs after one memory_init, in which programs allocate,
 free and write: to any address, since the free lists lie in the memory that is handed out.
 */
module MemoryRuns {
  import opened Bitmap
  import opened MemoryPools
  import Memory

  /** The pools, and for every live block its address with the size that was asked for. */
  datatype Heap = Heap(pools: seq<Pool>, grants: map<nat, nat>)

  datatype Op = AllocOp(size: nat) | FreeOp(ptr: nat) | WriteOp(at: nat, x: bv8)

  /** The eight pools where memory_init puts them, whatever their counters and bits. */
  ghost predicate Laid(pools: seq<Pool>, start: nat) {
    start > 0 && |pools| == POOL_COUNT
    && forall k | 0 <= k < POOL_COUNT ::
         Shaped(pools[k]) && pools[k].blockCount <= |pools[k].bits| && pools[k].base == start + 2048 * k
         && pools[k].blockSize == BlockSizeOf(k) && pools[k].blockCount == BlockCountOf(k)
  }

  // ---------- addresses ----------

  lemma PoolRange(start: nat, pools: seq<Pool>, k: nat)
    requires Laid(pools, start) && k < POOL_COUNT
    ensures pools[k].blockSize > 0
    ensures End(pools[k]) == if k == POOL_COUNT - 1 then start + POOLS_SIZE else start + 2048 * (k + 1)
  {
  }

  lemma OwnerIs(start: nat, pools: seq<Pool>, ptr: nat, k: nat)
    requires Laid(pools, start) && k < POOL_COUNT && InPool(pools[k], ptr)
    ensures Owner(pools, ptr, 0) == k
  {
    forall j | 0 <= j < k
      ensures !InPool(pools[j], ptr)
    {
      PoolRange(start, pools, j);
    }
    OwnerUnique(pools, ptr, 0, k);
  }

  lemma Distribute(d: nat, i: nat)
    ensures d * (i + 1) == i * d + d
  {
  }

  lemma DivUnique(x: nat, d: nat, i: nat)
    requires d > 0 && i * d <= x < i * d + d
    ensures x / d == i
  {
    var q := x / d;
    assert q * d <= x < q * d + d;
    Distribute(d, q);
    Distribute(d, i);
    if q < i { Scale(q + 1, i, d); }
    if i < q { Scale(i + 1, q, d); }
  }

  lemma BlockArithmetic(d: nat, n: nat, i: nat, x: nat)
    requires d > 0 && i < n && i * d <= x < i * d + d
    ensures x / d == i && i * d + d <= d * n
  {
    DivUnique(x, d, i);
    Scale(i + 1, n, d);
    Distribute(d, i);
  }

  /** Range and division find the block of any pointer into it, also into its middle. */
  lemma BlockFound(start: nat, pools: seq<Pool>, k: nat, i: nat, ptr: nat)
    requires Laid(pools, start) && k < POOL_COUNT && i < pools[k].blockCount
    requires Address(pools[k], i) <= ptr < Address(pools[k], i) + pools[k].blockSize
    ensures Owner(pools, ptr, 0) == k && BlockOf(pools[k], ptr) == i
    ensures start <= Address(pools[k], i) && Address(pools[k], i) + pools[k].blockSize <= End(pools[k])
  {
    var p := pools[k];
    PoolRange(start, pools, k);
    BlockArithmetic(p.blockSize, p.blockCount, i, ptr - p.base);
    OwnerIs(start, pools, ptr, k);
  }

  // ---------- one call ----------

  ghost function Step(h: Heap, start: nat, op: Op): (g: Heap)
    requires Laid(h.pools, start)
  {
    match op
    case AllocOp(size) =>
      var (pools, ptr) := Alloc(h.pools, size);
      Heap(pools, if ptr == 0 then h.grants else h.grants[ptr := size])
    case FreeOp(ptr) =>
      var k := Owner(h.pools, ptr, 0);
      Heap(Free(h.pools, ptr),
           if ptr == 0 || k == POOL_COUNT then h.grants
           else
             InPoolHasSize(h.pools[k], ptr);
             h.grants - {Address(h.pools[k], BlockOf(h.pools[k], ptr))})
    case WriteOp(at, x) => Heap(AfterWrite(h.pools, at, x), h.grants)
  }

  predicate SameShape(p: Pool, q: Pool) {
    Shaped(q) && q.base == p.base && q.blockSize == p.blockSize && q.blockCount == p.blockCount && |q.bits| == |p.bits|
  }

  lemma AllocKeepsShape(p: Pool)
    requires Shaped(p)
    ensures SameShape(p, PoolAlloc(p).0)
  {
  }

  lemma FreeKeepsShape(p: Pool, ptr: nat)
    requires Shaped(p) && InPool(p, ptr)
    ensures p.blockSize > 0 && p.blockCount <= |p.bits| && SameShape(p, PoolFree(p, ptr))
  {
    hide BlockOf;
    PoolFreeShaped(p, ptr);
  }

  lemma StepLaid(h: Heap, start: nat, op: Op)
    requires Laid(h.pools, start)
    ensures Laid(Step(h, start, op).pools, start)
  {
    hide WithByte, Serves, PoolAlloc, PoolFree, BlockOf, BlockAddress;
    match op
    case AllocOp(size) =>
      var k := Serving(h.pools, size, 0);
      if k < POOL_COUNT { AllocKeepsShape(h.pools[k]); }
    case FreeOp(ptr) =>
      var k := Owner(h.pools, ptr, 0);
      if k < POOL_COUNT { FreeKeepsShape(h.pools[k], ptr); }
    case WriteOp(at, x) =>
  }

  // ---------- the books ----------

  /** The address is that of a block, and the block holds what was asked for. */
  ghost predicate GrantedBlock(h: Heap, a: nat)
    requires a in h.grants
  {
    var k := Owner(h.pools, a, 0);
    && k < |h.pools| && h.pools[k].blockSize > 0
    && BlockOf(h.pools[k], a) < h.pools[k].blockCount && a == Address(h.pools[k], BlockOf(h.pools[k], a))
    && 0 < h.grants[a] <= h.pools[k].blockSize
  }

  /** Right counters, and exactly the addresses of used blocks granted, each for a size that fits its block. */
  ghost predicate Booked(h: Heap, start: nat) {
    && Laid(h.pools, start) && AllConsistent(h.pools)
    && (forall k, i | 0 <= k < POOL_COUNT && 0 <= i < h.pools[k].blockCount ::
          !h.pools[k].bits[i] <==> Address(h.pools[k], i) in h.grants)
    && (forall a | a in h.grants :: GrantedBlock(h, a))
  }

  /**
   A call that the books survive: any allocation, a free of null, of a pointer outside all pools or
   of one into a block in use, and a write that changes no byte of a free list.
   */
  ghost predicate Clean(h: Heap, start: nat, op: Op)
    requires Laid(h.pools, start)
  {
    match op
    case AllocOp(_) => true
    case FreeOp(ptr) =>
      ptr == 0 || Owner(h.pools, ptr, 0) == POOL_COUNT || InUse(h.pools[Owner(h.pools, ptr, 0)], ptr)
    case WriteOp(at, x) => Harmless(h.pools, at, x)
  }

  // ---------- one allocation ----------

  /** Pool `k` is large enough for the size and not full. */
  ghost predicate CanServe(h: Heap, k: nat, size: nat) {
    k < POOL_COUNT == |h.pools| && size <= BlockSizeOf(k) && h.pools[k].freeCount > 0
  }

  lemma Ascending(k: nat)
    requires k < POOL_COUNT
    ensures forall j | k <= j < POOL_COUNT :: BlockSizeOf(k) <= BlockSizeOf(j)
  {
  }

  /**
   An allocation takes the first free block of the smallest size class that is large enough and not
   full, and yields null exactly when the size is 0 or all large enough classes are full.
   */
  lemma AllocBestFit(h: Heap, start: nat, size: nat) returns (k: nat)
    requires Booked(h, start)
    ensures var (pools, ptr) := Alloc(h.pools, size);
            && (ptr == 0 <==> size == 0 || forall j: nat :: !CanServe(h, j, size))
            && (ptr == 0 ==> pools == h.pools)
            && (ptr != 0 ==>
                  && CanServe(h, k, size) && (forall j: nat | CanServe(h, j, size) :: BlockSizeOf(k) <= BlockSizeOf(j))
                  && ptr == Address(h.pools[k], FirstFree(h.pools[k].bits, h.pools[k].blockCount))
                  && ptr !in h.grants)
  {
    hide PoolAlloc, BlockAddress, FirstFree, GrantedBlock, Consistent;
    AllocsSucceed(h.pools, size);
    k := Serving(h.pools, size, 0);
    if k < POOL_COUNT {
      assert CanServe(h, k, size);
      PoolAllocTakes(h.pools[k]);
      Ascending(k);
    }
  }

  // ---------- the books stay right ----------

  lemma AddressInjective(start: nat, pools: seq<Pool>, k: nat, i: nat, m: nat, j: nat)
    requires Laid(pools, start)
    requires k < POOL_COUNT && i < pools[k].blockCount && m < POOL_COUNT && j < pools[m].blockCount
    requires Address(pools[k], i) == Address(pools[m], j)
    ensures k == m && i == j
  {
    hide Shaped, BlockAddress, Owner, BlockOf;
    PoolRange(start, pools, k);
    PoolRange(start, pools, m);
    BlockFound(start, pools, k, i, Address(pools[k], i));
    BlockFound(start, pools, m, j, Address(pools[m], j));
  }

  lemma GrantKept(h: Heap, g: Heap, start: nat, a: nat)
    requires Laid(h.pools, start) && Laid(g.pools, start) && a in h.grants && a in g.grants
    requires GrantedBlock(h, a) && g.grants[a] == h.grants[a]
    ensures GrantedBlock(g, a)
  {
  }

  lemma NewGrant(g: Heap, start: nat, k: nat, i: nat)
    requires Laid(g.pools, start) && k < POOL_COUNT && i < g.pools[k].blockCount
    requires Address(g.pools[k], i) in g.grants
    requires 0 < g.grants[Address(g.pools[k], i)] <= g.pools[k].blockSize
    ensures GrantedBlock(g, Address(g.pools[k], i))
  {
    hide Consistent, BlockAddress;
    PoolRange(start, g.pools, k);
    BlockFound(start, g.pools, k, i, Address(g.pools[k], i));
  }

  /** Block `i` of pool `k` changes hands, and the books follow. */
  lemma BookOne(h: Heap, g: Heap, start: nat, k: nat, i: nat, size: nat)
    requires Booked(h, start) && Laid(g.pools, start) && AllConsistent(g.pools)
    requires k < POOL_COUNT && i < h.pools[k].blockCount
    requires forall m | 0 <= m < POOL_COUNT && m != k :: g.pools[m].bits == h.pools[m].bits
    requires |g.pools[k].bits| == |h.pools[k].bits|
    requires forall j | 0 <= j < h.pools[k].blockCount && j != i :: g.pools[k].bits[j] == h.pools[k].bits[j]
    requires var a := Address(h.pools[k], i);
             if g.pools[k].bits[i] then g.grants == h.grants - {a}
             else g.grants == h.grants[a := size] && 0 < size <= h.pools[k].blockSize
    ensures Booked(g, start)
  {
    hide Consistent, BlockAddress, GrantedBlock;
    var a := Address(h.pools[k], i);
    forall m, j | 0 <= m < POOL_COUNT && 0 <= j < g.pools[m].blockCount
      ensures !g.pools[m].bits[j] <==> Address(g.pools[m], j) in g.grants
    {
      if Address(h.pools[m], j) == a { AddressInjective(start, h.pools, m, j, k, i); }
    }
    forall b | b in g.grants
      ensures GrantedBlock(g, b)
    {
      if b == a { NewGrant(g, start, k, i); } else { GrantKept(h, g, start, b); }
    }
  }

  lemma AllocBooked(h: Heap, start: nat, size: nat)
    requires Booked(h, start)
    ensures Booked(Step(h, start, AllocOp(size)), start)
  {
    hide PoolAlloc, BlockAddress, FirstFree, GrantedBlock, Consistent;
    StepLaid(h, start, AllocOp(size));
    AllocsSucceed(h.pools, size);
    var k := Serving(h.pools, size, 0);
    if size != 0 && k < POOL_COUNT {
      PoolAllocTakes(h.pools[k]);
      BookOne(h, Step(h, start, AllocOp(size)), start, k, FirstFree(h.pools[k].bits, h.pools[k].blockCount), size);
    }
  }

  /** A free keeps the books exactly when it hits nothing or a block in use. */
  lemma FreeBookedIff(h: Heap, start: nat, ptr: nat)
    requires Booked(h, start)
    ensures Booked(Step(h, start, FreeOp(ptr)), start) <==> Clean(h, start, FreeOp(ptr))
  {
    hide PoolFree, BlockAddress, GrantedBlock, BlockOf, Consistent;
    StepLaid(h, start, FreeOp(ptr));
    var k := Owner(h.pools, ptr, 0);
    if ptr != 0 && k < POOL_COUNT {
      var g := Step(h, start, FreeOp(ptr));
      PoolFreeConsistent(h.pools[k], ptr);
      PoolFreeShaped(h.pools[k], ptr);
      if InUse(h.pools[k], ptr) {
        BookOne(h, g, start, k, BlockOf(h.pools[k], ptr), 0);
      } else {
        assert !Consistent(g.pools[k]);
      }
    }
  }

  /** Two allocator states with right books and the same live blocks agree in every counter and every bit. */
  lemma StateFromLiveBlocks(h: Heap, g: Heap, start: nat)
    requires Booked(h, start) && Booked(g, start) && h.grants.Keys == g.grants.Keys
    ensures h.pools == g.pools
  {
    hide GrantedBlock, BlockAddress;
    forall k | 0 <= k < POOL_COUNT
      ensures h.pools[k] == g.pools[k]
    {
      assert Consistent(h.pools[k]) && Consistent(g.pools[k]);
      forall i | 0 <= i < |h.pools[k].bits|
        ensures h.pools[k].bits[i] == g.pools[k].bits[i]
      {
        if i < h.pools[k].blockCount {
          assert !h.pools[k].bits[i] <==> Address(h.pools[k], i) in h.grants;
          assert !g.pools[k].bits[i] <==> Address(g.pools[k], i) in g.grants;
        }
      }
      assert h.pools[k].bits == g.pools[k].bits;
    }
  }

  lemma BookedLaid(h: Heap, start: nat)
    requires Booked(h, start)
    ensures Laid(h.pools, start)
  {
  }

  /** A write keeps the books exactly when it changes no free list: the live blocks leave no other state. */
  lemma WriteBookedIff(h: Heap, start: nat, at: nat, x: bv8)
    requires Booked(h, start)
    ensures Booked(Step(h, start, WriteOp(at, x)), start) <==> Clean(h, start, WriteOp(at, x))
  {
    hide Booked, Harmless, AfterWrite;
    assert Laid(h.pools, start) by { BookedLaid(h, start); }
    HarmlessIff(h.pools, at, x);
    var g := Step(h, start, WriteOp(at, x));
    if Booked(g, start) { StateFromLiveBlocks(h, g, start); }
  }

  lemma StepBookedIff(h: Heap, start: nat, op: Op)
    requires Booked(h, start)
    ensures Booked(Step(h, start, op), start) <==> Clean(h, start, op)
  {
    hide Booked, Step, Harmless;
    assert Laid(h.pools, start) by { BookedLaid(h, start); }
    match op
    case AllocOp(size) => AllocBooked(h, start, size);
    case FreeOp(ptr) => FreeBookedIff(h, start, ptr);
    case WriteOp(at, x) => WriteBookedIff(h, start, at, x);
  }

  // ---------- whole runs ----------

  function Boot(start: nat): Heap { Heap(FreshPools(start), map[]) }

  lemma FreshPoolConsistent(start: nat, k: nat)
    requires start > 0 && k < POOL_COUNT
    ensures Consistent(FreshPools(start)[k])
  {
    hide CountFree;
    CountAll(FreshPools(start)[k].bits, BlockCountOf(k));
  }

  lemma BootBooked(start: nat)
    requires start > 0
    ensures Booked(Boot(start), start)
  {
    forall k | 0 <= k < POOL_COUNT
      ensures Consistent(FreshPools(start)[k])
    {
      FreshPoolConsistent(start, k);
    }
    hide Consistent, BlockAddress;
  }

  ghost function Run(start: nat, ops: seq<Op>): (h: Heap)
    requires start > 0
    ensures Laid(h.pools, start)
  {
    if |ops| == 0 then
      BootBooked(start);
      Boot(start)
    else
      var h := Run(start, ops[..|ops| - 1]);
      StepLaid(h, start, ops[|ops| - 1]);
      Step(h, start, ops[|ops| - 1])
  }

  /** Every call of the run is clean in the state it finds. */
  ghost predicate CleanRun(start: nat, ops: seq<Op>)
    requires start > 0
  {
    |ops| > 0 ==>
      CleanRun(start, ops[..|ops| - 1]) && Clean(Run(start, ops[..|ops| - 1]), start, ops[|ops| - 1])
  }

  lemma {:induction false} AlwaysBooked(start: nat, ops: seq<Op>)
    requires start > 0 && CleanRun(start, ops)
    ensures Booked(Run(start, ops), start)
  {
    hide Booked, Clean, Step;
    if |ops| == 0 {
      BootBooked(start);
    } else {
      AlwaysBooked(start, ops[..|ops| - 1]);
      StepBookedIff(Run(start, ops[..|ops| - 1]), start, ops[|ops| - 1]);
    }
  }

  lemma LastStep(start: nat, ops: seq<Op>)
    requires start > 0 && |ops| > 0 && CleanRun(start, ops[..|ops| - 1])
    ensures Booked(Run(start, ops), start) <==> Clean(Run(start, ops[..|ops| - 1]), start, ops[|ops| - 1])
  {
    hide Booked, Clean, Step;
    AlwaysBooked(start, ops[..|ops| - 1]);
    StepBookedIff(Run(start, ops[..|ops| - 1]), start, ops[|ops| - 1]);
  }

  /**
   The books are right after every call of a run exactly when every call was clean: the first free
   of a block not in use, or write into a free list, puts them out.
   */
  lemma {:induction false} BookedThroughoutIff(start: nat, ops: seq<Op>)
    requires start > 0
    ensures (forall n | 0 <= n <= |ops| :: Booked(Run(start, ops[..n]), start)) <==> CleanRun(start, ops)
  {
    hide Booked, Clean, Step, Run;
    if |ops| == 0 {
      AlwaysBooked(start, ops[..0]);
    } else {
      var last := |ops| - 1;
      var rest := ops[..last];
      BookedThroughoutIff(start, rest);
      assert forall n | 0 <= n <= last :: rest[..n] == ops[..n];
      if CleanRun(start, rest) {
        AlwaysBooked(start, rest);
        LastStep(start, ops);
        assert ops[..|ops|] == ops;
      }
    }
  }

  /** The memory of a live block: from its address to the end of its block. */
  ghost function BlockEnd(h: Heap, a: nat): nat
    requires a in h.grants && GrantedBlock(h, a)
  {
    a + h.pools[Owner(h.pools, a, 0)].blockSize
  }

  /** In every clean run, live blocks hold what was asked for, lie in the heap and never overlap. */
  lemma LiveBlocksApart(start: nat, ops: seq<Op>, a: nat, b: nat)
    requires start > 0 && CleanRun(start, ops)
    requires a in Run(start, ops).grants && b in Run(start, ops).grants && a != b
    ensures var h := Run(start, ops);
            && GrantedBlock(h, a) && GrantedBlock(h, b)
            && a + h.grants[a] <= BlockEnd(h, a)
            && start <= a && BlockEnd(h, a) <= start + POOLS_SIZE
            && (BlockEnd(h, a) <= b || BlockEnd(h, b) <= a)
  {
    hide Run, CleanRun, Consistent, Shaped, BlockAddress;
    AlwaysBooked(start, ops);
    var h := Run(start, ops);
    assert GrantedBlock(h, a) && GrantedBlock(h, b);
    var k, m := Owner(h.pools, a, 0), Owner(h.pools, b, 0);
    BlockFound(start, h.pools, k, BlockOf(h.pools[k], a), a);
    PoolRange(start, h.pools, k);
    if a < b < BlockEnd(h, a) { BlockFound(start, h.pools, k, BlockOf(h.pools[k], a), b); }
    if b < a < BlockEnd(h, b) { BlockFound(start, h.pools, m, BlockOf(h.pools[m], b), a); }
  }

  // ---------- the state is a function of the live blocks ----------

  /** Whatever happened before, once nothing is live the pools are exactly as memory_init left them. */
  lemma AllFreedRestores(start: nat, ops: seq<Op>)
    requires start > 0 && CleanRun(start, ops) && Run(start, ops).grants == map[]
    ensures Run(start, ops).pools == FreshPools(start)
  {
    hide Booked;
    AlwaysBooked(start, ops);
    BootBooked(start);
    StateFromLiveBlocks(Run(start, ops), Boot(start), start);
  }

  /** Freeing any pointer into a live block retires exactly that block. */
  lemma FreeRetiresBlock(h: Heap, start: nat, a: nat, ptr: nat)
    requires Booked(h, start) && a in h.grants && GrantedBlock(h, a) && a <= ptr < BlockEnd(h, a)
    ensures Clean(h, start, FreeOp(ptr))
    ensures Step(h, start, FreeOp(ptr)).grants == h.grants - {a}
    ensures Booked(Step(h, start, FreeOp(ptr)), start)
  {
    hide BlockAddress, Consistent, Shaped, PoolFree, BlockOf, Owner;
    var k := Owner(h.pools, a, 0);
    var i := BlockOf(h.pools[k], a);
    BlockFound(start, h.pools, k, i, ptr);
    BlockFound(start, h.pools, k, i, a);
    assert !h.pools[k].bits[i];
    FreeBookedIff(h, start, ptr);
  }

  lemma AllocGrants(h: Heap, start: nat, size: nat)
    requires Booked(h, start)
    ensures var ptr := Alloc(h.pools, size).1;
            var g := Step(h, start, AllocOp(size));
            ptr != 0 ==> ptr !in h.grants && g.grants == h.grants[ptr := size] && Booked(g, start)
  {
    var k := AllocBestFit(h, start, size);
    AllocBooked(h, start, size);
  }

  lemma GrantInBooks(h: Heap, start: nat, a: nat)
    requires Booked(h, start) && a in h.grants
    ensures GrantedBlock(h, a) && a < BlockEnd(h, a)
  {
  }

  lemma FreeUndoes(h: Heap, g: Heap, start: nat, ptr: nat, size: nat)
    requires Booked(h, start) && Booked(g, start)
    requires ptr !in h.grants && g.grants == h.grants[ptr := size]
    ensures Clean(g, start, FreeOp(ptr)) && Step(g, start, FreeOp(ptr)) == h
  {
    hide Step, Clean, GrantedBlock, BlockEnd;
    GrantInBooks(g, start, ptr);
    FreeRetiresBlock(g, start, ptr, ptr);
    hide Booked;
    assert g.grants - {ptr} == h.grants;
    StateFromLiveBlocks(Step(g, start, FreeOp(ptr)), h, start);
  }

  /** An allocation that is freed at once leaves no trace. */
  lemma AllocFreeIdentity(h: Heap, start: nat, size: nat, ptr: nat)
    requires Booked(h, start)
    requires ptr == Alloc(h.pools, size).1 != 0
    ensures Booked(Step(h, start, AllocOp(size)), start)
    ensures Clean(Step(h, start, AllocOp(size)), start, FreeOp(ptr))
    ensures Step(Step(h, start, AllocOp(size)), start, FreeOp(ptr)) == h
  {
    hide Alloc, Step, Consistent, GrantedBlock, BlockAddress;
    AllocGrants(h, start, size);
    FreeUndoes(h, Step(h, start, AllocOp(size)), start, ptr, size);
  }

  /** The number of the smallest class for a size, by its value. */
  function Smallest(size: nat): (k: nat)
    requires 1 <= size <= 4096
    ensures k < POOL_COUNT && size <= BlockSizeOf(k) && (BlockSizeOf(k) < 2 * size || BlockSizeOf(k) == 32)
  {
    if size <= 32 then 0 else if size <= 64 then 1 else if size <= 128 then 2 else if size <= 256 then 3
    else if size <= 512 then 4 else if size <= 1024 then 5 else if size <= 2048 then 6 else 7
  }

  lemma FreshServes(start: nat, size: nat)
    requires start > 0
    ensures forall k: nat :: CanServe(Boot(start), k, size) <==> k < POOL_COUNT && size <= BlockSizeOf(k)
    ensures size > 4096 ==> forall k: nat :: !CanServe(Boot(start), k, size)
    ensures forall k | 0 <= k < POOL_COUNT ::
              FreshPools(start)[k].blockSize == BlockSizeOf(k) >= 32 && FirstFree(FreshPools(start)[k].bits, BlockCountOf(k)) == 0
  {
    forall k | 0 <= k < POOL_COUNT
      ensures FirstFree(FreshPools(start)[k].bits, BlockCountOf(k)) == 0
    {
      FirstFreeUnique(FreshPools(start)[k].bits, BlockCountOf(k), 0);
    }
    hide FirstFree;
  }

  /**
   The source keeps the bitmap of a pool in the first bytes of the pool itself: the memory handed
   out overlaps the allocator's own exactly when it is a pool's first block, which is also the
   first one to be handed out.
   */
  lemma FirstBlockHoldsBitmap(start: nat, k: nat, i: nat)
    requires start > 0 && k < POOL_COUNT && i < BlockCountOf(k)
    ensures var p := FreshPools(start)[k];
            && (Address(p, i) < p.base + BitmapSize(p.blockCount) <==> i == 0)
            && BitmapSize(p.blockCount) <= p.blockSize
            && PoolAlloc(p).1 == Address(p, 0) == p.base
  {
    var p := FreshPools(start)[k];
    assert BitmapSize(BlockCountOf(k)) <= 8 < BlockSizeOf(k);
    if i > 0 { Scale(1, i, p.blockSize); }
    FirstFreeUnique(p.bits, p.blockCount, 0);
  }

  /**
   After memory_init a request of 1 to 4096 bytes is served by a block that is smaller than twice
   the size, or has 32 bytes; larger ones are refused.
   */
  lemma FreshFit(start: nat, size: nat)
    requires start > 0
    ensures Booked(Boot(start), start)
    ensures Alloc(FreshPools(start), size).1 != 0 <==> 1 <= size <= 4096
    ensures 1 <= size <= 4096 ==>
              var ptr := Alloc(FreshPools(start), size).1;
              var k := Owner(FreshPools(start), ptr, 0);
              && k < POOL_COUNT
              && var block := FreshPools(start)[k].blockSize;
                 size <= block && (block < 2 * size || block == 32)
  {
    hide PoolAlloc, BlockAddress, FirstFree, Consistent, GrantedBlock, Owner, BlockOf, BlockSizeOf, Smallest;
    var h := Boot(start);
    BootBooked(start);
    FreshServes(start, size);
    var k := AllocBestFit(h, start, size);
    if 1 <= size <= 4096 {
      assert CanServe(h, Smallest(size), size) && CanServe(h, k, size);
      BlockFound(start, h.pools, k, FirstFree(h.pools[k].bits, h.pools[k].blockCount),
                 Address(h.pools[k], FirstFree(h.pools[k].bits, h.pools[k].blockCount)));
    }
  }

  // ---------- the bitmap's place ----------

  /** A pointer into block `i` of pool `k` hits a free list exactly when it hits the start of that pool's block 0. */
  lemma InBitmapIff(start: nat, pools: seq<Pool>, k: nat, i: nat, o: nat, m: nat)
    requires Laid(pools, start) && k < POOL_COUNT && i < pools[k].blockCount && o < pools[k].blockSize && m < POOL_COUNT
    ensures InBitmap(pools[m], Address(pools[k], i) + o) <==> m == k && i == 0 && o < BitmapSize(pools[k].blockCount)
  {
    hide Shaped, Owner, BlockOf;
    var a := Address(pools[k], i);
    BlockFound(start, pools, k, i, a + o);
    PoolRange(start, pools, k);
    PoolRange(start, pools, m);
    assert BitmapSize(BlockCountOf(m)) <= 8 < BlockSizeOf(m);
    Scale(1, pools[m].blockCount, pools[m].blockSize);
    if i > 0 { Scale(1, i, pools[k].blockSize); }
  }

  lemma BlockStart(start: nat, pools: seq<Pool>, k: nat, i: nat)
    requires Laid(pools, start) && k < POOL_COUNT && i < pools[k].blockCount
    ensures Address(pools[k], i) == pools[k].base <==> i == 0
  {
    PoolRange(start, pools, k);
    if i > 0 { Scale(1, i, pools[k].blockSize); }
  }

  lemma InOnePool(pools: seq<Pool>, start: nat, k: nat, i: nat, o: nat, x: bv8)
    requires Laid(pools, start) && k < POOL_COUNT && i < pools[k].blockCount && o < pools[k].blockSize
    ensures var p := pools[k];
            Harmless(pools, Address(p, i) + o, x)
            <==> i > 0 || o >= BitmapSize(p.blockCount) || ByteIs(p.bits, o, x)
  {
    hide ByteIs, InBitmap;
    var p := pools[k];
    BlockStart(start, pools, k, i);
    forall m | 0 <= m < POOL_COUNT
      ensures InBitmap(pools[m], Address(p, i) + o) <==> m == k && i == 0 && o < BitmapSize(p.blockCount)
    {
      InBitmapIff(start, pools, k, i, o, m);
    }
  }

  /**
   A program that writes into the memory it was given, and nowhere else, keeps the books exactly
   when its block is not the first of a pool, or the offset is behind the free list, or the byte
   is the one that lies there.
   */
  lemma OwnWriteCleanIff(h: Heap, start: nat, a: nat, o: nat, x: bv8)
    requires Booked(h, start) && a in h.grants && o < h.grants[a]
    ensures var p := h.pools[Owner(h.pools, a, 0)];
            Booked(Step(h, start, WriteOp(a + o, x)), start)
            <==> a != p.base || o >= BitmapSize(p.blockCount) || ByteIs(p.bits, o, x)
  {
    hide Booked, ByteIs, Owner, BlockOf, BlockAddress, Step, Harmless, Shaped;
    BookedLaid(h, start);
    GrantInBooks(h, start, a);
    WriteBookedIff(h, start, a + o, x);
    var k := Owner(h.pools, a, 0);
    BlockStart(start, h.pools, k, BlockOf(h.pools[k], a));
    InOnePool(h.pools, start, k, BlockOf(h.pools[k], a), o, x);
  }

  /** A write to byte `j` of pool `k`'s free list changes eight bits of it, and no other pool. */
  lemma OnlyPoolWritten(h: Heap, start: nat, k: nat, j: nat, x: bv8)
    requires Laid(h.pools, start) && k < POOL_COUNT && j < BitmapSize(h.pools[k].blockCount)
    ensures var g := Step(h, start, WriteOp(h.pools[k].base + j, x));
            && g.grants == h.grants
            && g.pools[k] == h.pools[k].(bits := WithByte(h.pools[k].bits, j, x))
            && forall m | 0 <= m < POOL_COUNT && m != k :: g.pools[m] == h.pools[m]
  {
    hide WithByte, Shaped;
    PoolRange(start, h.pools, k);
    assert BitmapSize(BlockCountOf(k)) <= 8 < BlockSizeOf(k);
    forall m | 0 <= m < POOL_COUNT
      ensures InBitmap(h.pools[m], h.pools[k].base + j) <==> m == k
    {
      InBitmapIff(start, h.pools, k, 0, j, m);
    }
  }

  lemma FirstByteDecides(p: Pool, q: Pool, x: bv8)
    requires Shaped(p) && p.blockCount > 0 && q == p.(bits := WithByte(p.bits, 0, x))
    ensures |q.bits| == |p.bits| >= p.blockCount
    ensures FirstFree(q.bits, q.blockCount) == 0 <==> BitSet(x, 0)
  {
    hide FirstFree, BitSet;
    assert q.bits[0] == BitSet(x, 0);
    if BitSet(x, 0) { FirstFreeUnique(q.bits, q.blockCount, 0); }
  }

  lemma GrantPositive(h: Heap, start: nat, a: nat)
    requires Booked(h, start) && a in h.grants
    ensures a > 0
  {
    hide Owner, BlockOf, Consistent;
    assert GrantedBlock(h, a);
    assert h.pools[Owner(h.pools, a, 0)].base > 0;
  }

  lemma NullNotGranted(h: Heap, start: nat)
    requires Booked(h, start)
    ensures 0 !in h.grants
  {
    forall a | a in h.grants
      ensures a > 0
    {
      GrantPositive(h, start, a);
    }
  }

  /** What an allocation hands out when pool `k` is the first that can serve, its bits being `q`'s. */
  lemma FromWrittenPool(h: Heap, g: Heap, start: nat, k: nat, size: nat)
    requires Booked(h, start) && Laid(g.pools, start) && g.grants == h.grants
    requires k < POOL_COUNT && size > 0 && CanServe(h, k, size) && forall j: nat | j < k :: !CanServe(h, j, size)
    requires g.pools[k] == h.pools[k].(bits := g.pools[k].bits) && |g.pools[k].bits| == |h.pools[k].bits|
    requires forall j | 0 <= j < POOL_COUNT && j != k :: g.pools[j] == h.pools[j]
    ensures var ptr, p, q := Alloc(g.pools, size).1, h.pools[k], g.pools[k];
            var f := FirstFree(q.bits, q.blockCount);
            if f < p.blockCount then ptr == Address(p, f) else ptr !in h.grants
  {
    hide PoolAlloc, Consistent, FirstFree, GrantedBlock, BlockAddress;
    AllocsSucceed(h.pools, size);
    PoolAllocShaped(g.pools[k]);
    forall j: nat | j < k
      ensures !Serves(g.pools[j], size)
    {
      assert !CanServe(h, j, size);
    }
    var q := g.pools[k];
    if FirstFree(q.bits, q.blockCount) < q.blockCount {
      AllocServed(g.pools, size, k);
    } else {
      assert !Serves(q, size);
      var j := Serving(g.pools, size, 0);
      NullNotGranted(h, start);
      if j < POOL_COUNT { PoolAllocTakes(h.pools[j]); }
    }
  }

  /**
   Let the first block of the pool that serves a size be in use already, and its owner write the
   first byte: the next allocation hands the same block out again exactly when the lowest bit of
   that byte is set.
   */
  lemma FirstBlockHandedOutTwiceIff(h: Heap, start: nat, k: nat, size: nat, x: bv8)
    requires Booked(h, start) && k < POOL_COUNT && h.pools[k].base in h.grants
    requires size > 0 && CanServe(h, k, size) && forall j: nat | j < k :: !CanServe(h, j, size)
    ensures var g := Step(h, start, WriteOp(h.pools[k].base, x));
            Laid(g.pools, start) && (Alloc(g.pools, size).1 == h.pools[k].base <==> BitSet(x, 0))
  {
    hide WithByte, BitSet, Consistent, FirstFree, GrantedBlock, BlockAddress, Alloc;
    var op := WriteOp(h.pools[k].base, x);
    var g := Step(h, start, op);
    StepLaid(h, start, op);
    OnlyPoolWritten(h, start, k, 0, x);
    FromWrittenPool(h, g, start, k, size);
    FirstByteDecides(h.pools[k], g.pools[k], x);
    var f := FirstFree(g.pools[k].bits, h.pools[k].blockCount);
    if f < h.pools[k].blockCount { BlockStart(start, h.pools, k, f); }
  }

  /** The lowest set bit among the first `n` is set in `after` but not in `before`: it belongs to a block in use. */
  predicate LowestIsLive(before: seq<bool>, after: seq<bool>, n: nat)
    requires n <= |before| && n <= |after|
  {
    exists i | 0 <= i < n :: after[i] && !before[i] && forall m | 0 <= m < i :: !after[m]
  }

  lemma LowestIsFirst(before: seq<bool>, after: seq<bool>, n: nat)
    requires n <= |before| && n <= |after|
    ensures LowestIsLive(before, after, n) <==> FirstFree(after, n) < n && !before[FirstFree(after, n)]
  {
    if LowestIsLive(before, after, n) {
      var i :| 0 <= i < n && after[i] && !before[i] && forall m | 0 <= m < i :: !after[m];
      FirstFreeUnique(after, n, i);
    }
  }

  /**
   A write of any byte anywhere in the free list of the pool that serves a size: the next
   allocation hands out a live block exactly when the lowest set bit among the pool's blocks is
   now that of a block in use.
   */
  lemma LiveBlockHandedOutIff(h: Heap, start: nat, k: nat, size: nat, j: nat, x: bv8)
    requires Booked(h, start) && k < POOL_COUNT && j < BitmapSize(h.pools[k].blockCount)
    requires size > 0 && CanServe(h, k, size) && forall m: nat | m < k :: !CanServe(h, m, size)
    ensures var g := Step(h, start, WriteOp(h.pools[k].base + j, x));
            var p, q := h.pools[k], g.pools[k];
            && Laid(g.pools, start)
            && (Alloc(g.pools, size).1 in h.grants <==> LowestIsLive(p.bits, q.bits, p.blockCount))
  {
    hide WithByte, PoolAlloc, Consistent, FirstFree, GrantedBlock, BlockAddress, LowestIsLive, Serving, Alloc;
    var op := WriteOp(h.pools[k].base + j, x);
    var g := Step(h, start, op);
    StepLaid(h, start, op);
    OnlyPoolWritten(h, start, k, j, x);
    FromWrittenPool(h, g, start, k, size);
    LowestIsFirst(h.pools[k].bits, g.pools[k].bits, h.pools[k].blockCount);
  }

  lemma BootServes(start: nat)
    requires start > 0
    ensures Booked(Boot(start), start)
    ensures var g := Step(Boot(start), start, AllocOp(32));
            Booked(g, start) && g.pools[0].base == start && start in g.grants && CanServe(g, 0, 32)
  {
    hide Booked, FirstFree, GrantedBlock;
    BootBooked(start);
    BookedLaid(Boot(start), start);
    AllocBooked(Boot(start), start, 32);
    var p := FreshPools(start)[0];
    FirstFreeUnique(p.bits, p.blockCount, 0);
    ServingUnique(FreshPools(start), 32, 0, 0);
  }

  lemma WriteKeepsGrants(h: Heap, start: nat, at: nat, x: bv8)
    requires Laid(h.pools, start)
    ensures Step(h, start, WriteOp(at, x)).grants == h.grants
  {
  }

  /** From memory_init on: a program gets 32 bytes and fills the first with ones, and the next one gets the same block. */
  lemma DoubleAllocation(start: nat)
    requires start > 0
    ensures var h := Run(start, [AllocOp(32), WriteOp(start, 0xFF)]);
            start in h.grants && Alloc(h.pools, 32).1 == start
  {
    hide Booked, Step, Alloc, FreshPools, CanServe;
    var first, both := [AllocOp(32)], [AllocOp(32), WriteOp(start, 0xFF)];
    BootServes(start);
    BookedLaid(Boot(start), start);
    var g := Step(Boot(start), start, AllocOp(32));
    assert first[..0] == [] && both[..1] == first;
    assert Run(start, []) == Boot(start) && Run(start, first) == g;
    assert Run(start, both) == Step(g, start, WriteOp(start, 0xFF));
    FirstBlockHandedOutTwiceIff(g, start, 0, 32, 0xFF);
    WriteKeepsGrants(g, start, start, 0xFF);
  }

  // ---------- the class and the runs ----------

  /** One call of the allocator's own methods is one step of a run, clean or not. */
  method Perform(kernel: Memory.Kernel, op: Op, ghost h: Heap) returns (ptr: nat)
    requires kernel.Valid() && Laid(h.pools, kernel.heapBase) && kernel.Pools() == h.pools
    requires op.WriteOp? ==> kernel.heapBase <= op.at < kernel.heapBase + HEAP_SIZE
    modifies kernel.heap, kernel.records
    ensures kernel.Valid() && kernel.Pools() == Step(h, kernel.heapBase, op).pools
    ensures op.AllocOp? ==> ptr == Alloc(h.pools, op.size).1
  {
    hide Shaped, Alloc, Free, AfterWrite;
    ptr := 0;
    match op
    case AllocOp(size) => ptr := kernel.Alloc(size);
    case FreeOp(p) => kernel.Free(p);
    case WriteOp(at, x) => kernel.Write(at - kernel.heapBase, x);
  }

  /** Whole runs: the class goes through the states of the run and hands out the run's pointers. */
  method Replay(kernel: Memory.Kernel, ops: seq<Op>) returns (pointers: seq<nat>)
    requires kernel.heapBase > 0 && kernel.Valid() && kernel.Pools() == FreshPools(kernel.heapBase)
    requires forall op | op in ops && op.WriteOp? :: kernel.heapBase <= op.at < kernel.heapBase + HEAP_SIZE
    modifies kernel.heap, kernel.records
    ensures kernel.Valid() && kernel.Pools() == Run(kernel.heapBase, ops).pools
    ensures |pointers| == |ops|
    ensures forall n | 0 <= n < |ops| && ops[n].AllocOp? ::
              pointers[n] == Alloc(Run(kernel.heapBase, ops[..n]).pools, ops[n].size).1
  {
    hide Step, Alloc, Shaped, FreshPools;
    pointers := [];
    for n := 0 to |ops|
      invariant kernel.Valid() && kernel.Pools() == Run(kernel.heapBase, ops[..n]).pools
      invariant |pointers| == n
      invariant forall j | 0 <= j < n && ops[j].AllocOp? ::
                  pointers[j] == Alloc(Run(kernel.heapBase, ops[..j]).pools, ops[j].size).1
    {
      assert ops[..n + 1][..n] == ops[..n];
      var ptr := Perform(kernel, ops[n], Run(kernel.heapBase, ops[..n]));
      pointers := pointers + [ptr];
    }
    assert ops[..|ops|] == ops;
  }
}
