# AutoMLOS in Dafny

A model of the stateful components of the AutoMLOS microkernel and its logging, time and IPC
libraries, with proofs of what those components keep over whole runs.

Each component has three layers. A *class* (or a method) does what the C code does, on arrays and
fields, with the same branches and the same order of checks. A *specification function* on plain
values says what one call does; every method ensures that it moves the object's `View()` by that
function. *Lemmas* prove what the specification guarantees over any run.

| files | source | subject |
|---|---|---|
| `RateMonotonic`, `Scheduler`, `SchedulerAdmission`, `SchedulerDispatch`, `SchedulerRuns` | `kernel/core/scheduler.c` | admission test, dispatch order, time accounting |
| `Bitmap`, `MemoryPools`, `Memory`, `MemoryRuns` | `kernel/core/memory.c` | pool allocator |
| `TimeSources`, `TimeSourceRuns` | `lib/time/time.c` | redundant clocks and failover |
| `Bytes`, `LogEntry` | `lib/logging/log_common.h`, `log_core.c` | record layout and checksums |
| `Ring`, `LogBuffer`, `LogBufferRuns` | `lib/logging/log_core.c` | checksummed ring buffer |
| `LogClient` | `lib/logging/log_client.c` | publishing with a fallback buffer |
| `LoggerService` | `services/logger/logger_service.c` | per-level buffers of the service |
| `LogParser` | `tools/log_parser/log_parser.c` | record stream, statistics, filters |
| `Batch`, `Topics` | `lib/libipc/ipc_batch.c`, `ipc_topics.c` | message packing, topic grammar |
| `Widths`, `SystemErrors` | `lib/safety/system_errors.c` | machine integers, error records |

## Conventions

- Machine integers are subset types (`u8` to `u64`); every addition, subtraction, product or cast that
  can wrap in C goes through `Wrap16`, `Wrap32` or `Wrap64`. `size_t` and pointers have 64 bits.
- Structures lie in memory little-endian and packed, as `log_common.h` declares them.
- Floating point is `real`. `powf(2, 1/n)` is an input `root` of which only `root^n == 2` is known;
  `RootFreeBound` shows that the test with the root and the test without it are the same.
- Clocks, hardware counters, process ids, allocation results and the answers of the transport are inputs.
- `NULL` is `None`, or 0 for an address. A null pointer to the object a method works on is not modelled.

## Where the code does less than it promises

Each of these is stated as a condition that holds exactly when the promise is kept, or exactly when
it fails, for all inputs.

- `LogBufferRuns.RunBehaviour`: the buffer is a queue of the newest 64 entries only until a put whose
  byte sum needs more than 16 bits, because the stored checksum is cut to 16 bits and compared with a
  32-bit sum. From that put on every operation is refused. `HeavyRecordsSpoilTheBuffer` gives a
  record, made by `log_create_entry`, that does this on its nineteenth put.
- `SchedulerAdmission.ChargedAsGrantedIff`: the test counts what was granted, and nothing else, exactly
  when no process without parameters was created right after a refused request with a load: such a
  process inherits the refused parameters. `StaleParametersBlockAdmission` gives a run in which this refuses a task.
- `SchedulerRuns.IdlesUnlessWoken`: nothing in the repository makes a process ready, so every run of
  creations and iterations idles for ever; ready processes come from outside.
- `SchedulerDispatch.DrainsIffNoSelfPick`: the ready queue drains exactly when the first process picked
  is not already the current one; otherwise that process is picked for ever. `SelfPickReached` gives
  a run that gets there, by waking the process that is running, and starves a second one.
- `TimeSourceRuns.FourthStrikeFailsOver`: the comment at `lib/time/time.c:193` says that the source with
  the higher drift is marked; the code blames the source that is ahead, and retires a source exactly
  when it has been seen ahead four times. So a slow primary stays (`SlowPrimaryStaysActive`);
  `RightClockRetired` is a run with a timer at half speed that retires the correct clock.
- `TimeSourceRuns.StoppedPrimaryStaysActive`: a primary that stops hands over exactly when it already
  had three failures and its first call after stopping is the fourth, since the interval between
  validations is measured by the stopped timer itself. After any boot it is never replaced
  (`StuckFromBoot`), whatever the other clock shows; `HoursLost` is a concrete run.
- `TimeSourceRuns.AgreementBlamedIff`: of two clocks that agree, at the frequencies the timer driver
  accepts, one is blamed exactly when the elapsed ticks of the other times 10^6 no longer fit in 64
  bits, as long as one of the two products fits; at 1 MHz the timer's stops fitting after 213 days
  (`AgreementEnds`). When neither fits, either of them or nobody is blamed (`NeitherFits`).
- `TimeSourceRuns.ReadGoesBackIff`: a read returns less than the clock showed exactly when it hands over
  and the real-time clock has fewer ticks, since the time is in ticks of whichever source is active;
  for reads at one instant, a faster timer and a product that fits, that is every handover
  (`HandoverGoesBack`). `TimeGoesBack` is a run.
- `TimeSourceRuns.FallbackNeverUsed` and `ClockStuckIffTimerFails`: the software counter is documented
  as a fallback that is always available, but in no run is it ever selected, and the failure that
  `kernel_time_init` would report for it is never reported. The clock shows 0 at every read exactly
  as long as no initialisation has found a working timer.
- `MemoryRuns.BookedThroughoutIff`: the free list of a pool lies in the pool's first block, which is
  the first to be handed out. The allocator's books are right after every call of a run exactly when
  every free hits nothing or a block in use and no write changes a free-list byte; for a write into
  the program's own block, `OwnWriteCleanIff` says which ones do. `LiveBlockHandedOutIff` says when
  the next allocation hands out a live block, and `DoubleAllocation` is a run in which it does.
- `Topics.Built`: the builder writes a topic for every category and then refuses its own
  `safety/status/overall`, because the validator reserves that namespace; every other category succeeds.
- `LogClient.StoredNeverDelivered`: the flush is private to `log_client_init`, which empties the early
  buffer before it, so no stored entry is ever published. A run throws stored entries away exactly
  when an initialisation comes after one (`NothingDiscardedIff`).

## Model

| member | source | states |
|---|---|---|
| RateMonotonic.RootFreeBound | kernel/core/scheduler.c:284-288 | load <= n(2^(1/n) - 1) and (1 + load/n)^n <= 2 are the same test, for every n and every positive root |
| RateMonotonic.Bernoulli | kernel/core/scheduler.c:281-288 | (a+d)^(k+1) >= a^(k+1) + (k+1) a^k d, the inequality behind both admission theorems |
| RateMonotonic.SpreadStep | kernel/core/scheduler.c:281-288 | (1+s/m)^m (1+u) <= (1+(s+u)/(m+1))^(m+1): one more task |
| RateMonotonic.ProductAtMostSpread | kernel/core/scheduler.c:271-288 | the hyperbolic product is at most that of evenly spread load |
| RateMonotonic.SpreadGrows | kernel/core/scheduler.c:284-285 | the rate-monotonic bound falls as the number of tasks grows |
| RateMonotonic.BoundImpliesHyperbolic | kernel/core/scheduler.c:281-288 | tasks that pass the sum test satisfy the hyperbolic bound |
| Scheduler.Kernel.constructor | kernel/core/scheduler.c:120-129 | a zeroed table with the idle process current |
| Scheduler.Kernel.FeasibilityCheck | kernel/core/scheduler.c:248-289 | the loop and the root test decide exactly the root-free feasibility of the parameters next to the counted slots |
| Scheduler.Kernel.ProcessCreate | kernel/core/scheduler.c:218-244 | the new table, count and result of a creation, including what a refused one leaves behind |
| Scheduler.Kernel.PickNext | kernel/core/scheduler.c:148-161 | the loop finds the slot that the order lemmas characterise |
| Scheduler.Kernel.SlotOf | kernel/core/scheduler.c:169-175 | looking a pid up finds slot pid - 1 |
| Scheduler.Kernel.SwitchTo | kernel/core/scheduler.c:164-177 | the context switch, skipped when the picked process is current |
| Scheduler.Kernel.ChargeCurrent | kernel/core/scheduler.c:180-188 | the elapsed time goes to the process that is current after the switch |
| Scheduler.Kernel.RunIteration | kernel/core/scheduler.c:138-192 | one turn of the scheduling loop |
| SchedulerAdmission.AdmittedTasksHyperbolic | kernel/core/scheduler.c:218-289 | in every run of creations, iterations and outside state changes, the product of (1 + utilization) over the tasks that passed the test is at most 2 |
| SchedulerAdmission.GrantedAreSensible | kernel/core/scheduler.c:248-264 | in every run, whatever was granted has 0 < deadline <= period and 0 < execution time < period |
| SchedulerAdmission.CreatedIff | kernel/core/scheduler.c:248-289 | next to any processes, a request is granted exactly when its parameters are sensible and its utilization fits under n(2^(1/n) - 1) - 5 percent with that of the table |
| SchedulerAdmission.FirstTaskIff | kernel/core/scheduler.c:248-289 | on an empty table, granted exactly when the deadline lies within the period and the execution time is positive and at most 95 percent of it |
| SchedulerAdmission.ProcessesAsAsked | kernel/core/scheduler.c:218-243 | in every run, process i + 1 is the i-th one created, with the priority and parameters asked for |
| SchedulerAdmission.CreationAnswer | kernel/core/scheduler.c:218-244 | the answer to a request after any run: invalid exactly without a target or with 32 processes, else the next pid |
| SchedulerAdmission.AdmissionMonotone | kernel/core/scheduler.c:266-288 | a task accepted next to some processes is accepted next to any part of them |
| SchedulerAdmission.NextSlotHolds | kernel/core/scheduler.c:225-241 | in every run the next free slot holds the parameters of the last request refused since the last creation, and the slots behind it none |
| SchedulerAdmission.UnparameterisedLoad | kernel/core/scheduler.c:232-241 | a process without parameters is charged with those of the last refused request, and adds load exactly when they have a period and an execution time |
| SchedulerAdmission.ChargedLoad | kernel/core/scheduler.c:271-279 | in every run the sum of the test is what was granted plus what processes without parameters inherited |
| SchedulerAdmission.ChargedAsGrantedIff | kernel/core/scheduler.c:271-279 | the sum of the test is what was granted exactly when no process inherited a load |
| SchedulerAdmission.StaleParametersBlockAdmission | kernel/core/scheduler.c:232-239 | a refused request, a plain process and a one-percent task: the last is refused only because of the first |
| SchedulerDispatch.PickIsFirst | kernel/core/scheduler.c:148-161 | the pick is the least eligible slot by priority, then position; idle exactly when there is none |
| SchedulerDispatch.IterateTakesFirst | kernel/core/scheduler.c:148-177 | an iteration removes exactly the first eligible process from the ready set |
| SchedulerDispatch.DispatchOrder | kernel/core/scheduler.c:148-177 | iterations dispatch the eligible processes once each in stable priority order, then the idle process for ever |
| SchedulerDispatch.DispatchStamps | kernel/core/scheduler.c:168-175 | every dispatched process is running and keeps the time of its own dispatch |
| SchedulerDispatch.StableOrderExists | kernel/core/scheduler.c:151-161 | every table has such an order |
| SchedulerDispatch.SelfPickStarves | kernel/core/scheduler.c:163-177 | a current process that is ready and first is picked for ever |
| SchedulerDispatch.DrainsIffNoSelfPick | kernel/core/scheduler.c:163-177 | the ready queue drains exactly when the first pick is not the current process |
| SchedulerDispatch.TimeConserved | kernel/core/scheduler.c:179-191 | with a monotone clock, process time plus idle time grows by exactly the time that passes |
| SchedulerDispatch.TimeConservedModulo | kernel/core/scheduler.c:179-191 | with any clock, the same balance modulo 2^64 |
| SchedulerDispatch.TimeGoesToDispatched | kernel/core/scheduler.c:163-191 | each process is charged with the clock's advances over exactly the iterations that leave it current, modulo 2^64 |
| SchedulerDispatch.LoopCounters | kernel/core/scheduler.c:138-191 | the tick count, the time of the last iteration, and a deadline check less than a millisecond ago |
| SchedulerDispatch.DeadlineCheckDue | kernel/core/scheduler.c:141-145 | deadlines are looked at exactly when a millisecond has passed |
| SchedulerRuns.IdlesUnlessWoken | kernel/core/scheduler.c:148-177 | without outside wake-ups, every run from scheduler_init keeps the idle process current and picks nothing else |
| SchedulerRuns.SelfPickFromOutside | kernel/core/scheduler.c:148-244 | neither a creation nor an iteration starts or ends a self-pick |
| SchedulerRuns.SelfPickReached | kernel/core/scheduler.c:148-177 | create two, wake two, iterate, wake the running one: it is picked for ever and the other, ready, never runs |
| SchedulerRuns.RunTimeConserved | kernel/core/scheduler.c:120-241 | from scheduler_init on, creations included, process time plus idle time is the time since the start, for every clock that does not go back |
| SchedulerRuns.RunCounters | kernel/core/scheduler.c:120-191 | the tick count of any run is its number of iterations, and no deadline check is noted before the first |
| SchedulerRuns.RunTimeGoesToDispatched | kernel/core/scheduler.c:120-241 | the same per process over every run from scheduler_init, creations and state changes included |
| Bitmap.MaskIsShift | kernel/core/memory.c:100-104 | the mask of bit i is 1 shifted by i |
| Bitmap.BitsInjective | kernel/core/memory.c:74-76 | the bits determine the bytes |
| MemoryPools.PoolAllocSucceeds | kernel/core/memory.c:92-113 | with right counters the loop finds a block whenever free_count is positive, so the return behind it is unreachable |
| MemoryPools.PoolAllocConsistent | kernel/core/memory.c:102-106 | an allocation keeps free_count equal to the set bits and allocation_count to their complement |
| MemoryPools.PoolAllocShaped | kernel/core/memory.c:92-113 | with counters right or wrong, an allocation takes the first block with a set bit if free_count is positive, and otherwise changes nothing |
| MemoryPools.PoolFreeConsistent | kernel/core/memory.c:121-139 | a free keeps the counters right exactly when the block was in use |
| MemoryPools.HarmlessIff | kernel/core/memory.c:74-76 | a write changes no pool exactly when it hits no free list or puts back the byte that is there |
| Memory.Kernel.InitPool | kernel/core/memory.c:53-82 | the checks, and the new pool at the end of the used heap with all other pools untouched |
| Memory.Kernel.Init | kernel/core/memory.c:148-194 | eight fresh pools one behind the other, exactly when they fit; otherwise those that fit, with the rest untouched |
| Memory.Kernel.MarkAllFree | kernel/core/memory.c:74-76 | the memset sets exactly the bytes of the new free list |
| Memory.Kernel.IsFree | kernel/core/memory.c:99-102 | the byte and mask test with an 8-bit byte index reads the block's own bit |
| Memory.Kernel.WriteBit | kernel/core/memory.c:103-106 | one masked byte write changes one bit of one pool and leaves all other bitmaps on the heap alone |
| Memory.Kernel.FindFree | kernel/core/memory.c:98-110 | the search by bytes and masks finds the first set bit |
| Memory.Kernel.AllocFromPool | kernel/core/memory.c:92-113 | one pool's bitmap byte and counters change, nothing else in the heap's bookkeeping |
| Memory.Kernel.FreeInPool | kernel/core/memory.c:121-139 | the same for a free of any pointer into the pool, in use or not |
| Memory.Kernel.Alloc | kernel/core/memory.c:204-220 | the loop over the pools allocates from the first pool that serves the size |
| Memory.Kernel.Free | kernel/core/memory.c:227-242 | the loop over the ranges frees in the first pool that holds the pointer, for every pointer |
| Memory.Kernel.Write | kernel/core/memory.c:74-76 | a byte that a program writes shows in the free list it belongs to, and in no other |
| Memory.WriteInHeap | kernel/core/memory.c:74-76 | the same for the heap as a value |
| Memory.ViewDeterminesBitmap | kernel/core/memory.c:74-76 | pools that look the same have the same bitmap bytes |
| MemoryRuns.BlockFound | kernel/core/memory.c:127-128 | range and division find the owning pool and block of any pointer into a block |
| MemoryRuns.AllocBestFit | kernel/core/memory.c:204-220 | the smallest large-enough class with a free block serves; null exactly for size 0 or all of them full |
| MemoryRuns.FreshFit | kernel/core/memory.c:148-220 | after memory_init, 1 to 4096 bytes get a block smaller than twice the size or of 32 bytes; other sizes are refused |
| MemoryRuns.StepBookedIff | kernel/core/memory.c:92-242 | a call keeps the books right exactly when it is an allocation, a free that hits nothing or a block in use, or a write that changes no free list |
| MemoryRuns.AlwaysBooked | kernel/core/memory.c:92-242 | after clean calls the counters are right and the clear bits are exactly the live blocks, each large enough for its request |
| MemoryRuns.BookedThroughoutIff | kernel/core/memory.c:92-242 | over every run of allocations, frees and writes, the books are right throughout exactly when every call is clean |
| MemoryRuns.LiveBlocksApart | kernel/core/memory.c:148-220 | in clean runs, live blocks lie in the heap and are pairwise disjoint |
| MemoryRuns.StateFromLiveBlocks | kernel/core/memory.c:92-139 | the live blocks determine every counter and every bit |
| MemoryRuns.AllFreedRestores | kernel/core/memory.c:92-139 | when nothing is live after a clean run, the pools are as memory_init left them |
| MemoryRuns.FreeRetiresBlock | kernel/core/memory.c:227-242 | freeing any pointer into a live block retires exactly that block |
| MemoryRuns.AllocFreeIdentity | kernel/core/memory.c:204-242 | an allocation freed at once leaves no trace |
| MemoryRuns.FirstBlockHoldsBitmap | kernel/core/memory.c:74-76 | a handed-out block overlaps its pool's bitmap exactly when it is block 0, the first one handed out |
| MemoryRuns.OwnWriteCleanIff | kernel/core/memory.c:74-76 | a write into one's own block keeps the books exactly when the block is not a pool's first, or the offset is behind the free list, or the byte is unchanged |
| MemoryRuns.FirstBlockHandedOutTwiceIff | kernel/core/memory.c:74-113 | after its owner writes the first byte, a pool's first block is handed out again exactly when the lowest bit of that byte is set |
| MemoryRuns.LiveBlockHandedOutIff | kernel/core/memory.c:74-113 | after a write of any byte of the serving pool's free list, the next allocation hands out a live block exactly when the lowest set bit is that of one |
| MemoryRuns.DoubleAllocation | kernel/core/memory.c:74-113 | alloc(32), one write of 0xFF, alloc(32): both get the same address |
| MemoryRuns.Replay | kernel/core/memory.c:92-242 | calls of the class go through the states of the run and return its pointers |
| TimeSources.TimeContext.ReadActive | lib/time/time.c:275-292 | the raw read of the active source |
| TimeSources.TimeContext.ReadSource | lib/time/time.c:168-176 | microseconds since boot by one source, 0 if it is unhealthy |
| TimeSources.TimeContext.Compare | lib/time/time.c:165-200 | drift and blame of one comparison, in 64-bit arithmetic |
| TimeSources.TimeContext.Retire | lib/time/time.c:202-210 | sources with more than three failures become unhealthy |
| TimeSources.TimeContext.SwitchIfUnhealthy | lib/time/time.c:212-223 | the first usable source takes over from an unhealthy one |
| TimeSources.TimeContext.ValidateSources | lib/time/time.c:154-226 | one validation, skipped when it is not due |
| TimeSources.TimeContext.TickCount | lib/time/time.c:267-293 | the time, and the state after the validation that a read performs |
| TimeSources.TimeContext.Init | lib/time/time.c:233-260 | initialisation for all answers of the hardware |
| TimeSources.TimeContext.Latency | lib/time/time.c:347-355 | both branches give the difference modulo 2^64 |
| TimeSourceRuns.AlwaysRedundant | lib/time/time.c:154-226 | over every run: at most four failures each, never four for both, healthy active source, equal drifts |
| TimeSourceRuns.BootRecords | lib/time/time.c:85-151 | what initialisation records of each source, for all answers of the hardware |
| TimeSourceRuns.DriftsAreDistances | lib/time/time.c:178-184 | over every run both drifts grow by what the due comparisons found the sources apart, modulo 2^64 |
| TimeSourceRuns.DistanceIsTrue | lib/time/time.c:168-184 | that is the true difference in microseconds while both products fit in 64 bits |
| TimeSourceRuns.HealthNeverRegained | lib/time/time.c:202-210 | health is never regained and fail counts never fall |
| TimeSourceRuns.OneFailover | lib/time/time.c:212-223 | the active source changes at most once, to the secondary, and stays there |
| TimeSourceRuns.FailuresAreStrikes | lib/time/time.c:178-200 | over every run, each fail count grows by exactly the validations that saw the source ahead |
| TimeSourceRuns.FourthStrikeFailsOver | lib/time/time.c:187-223 | over every run, the secondary is active exactly when the primary was seen ahead four times, and is unhealthy exactly when it was itself |
| TimeSourceRuns.SlowPrimaryStaysActive | lib/time/time.c:193-198 | a primary that is never ahead stays active and unblamed, and the secondary goes at the fourth validation that sees it ahead |
| TimeSourceRuns.StoppedPrimaryStaysActive | lib/time/time.c:154-161 | a stopped primary hands over exactly when its first call makes the fourth failure; otherwise it stays active and the clock stands still |
| TimeSourceRuns.StuckFromBoot | lib/time/time.c:154-161 | a timer stuck at any value after any boot is never replaced |
| TimeSourceRuns.HoursLost | lib/time/time.c:154-161 | a run with hourly reads and a stopped timer: the clock still shows 0 |
| TimeSourceRuns.MicrosExact | lib/time/time.c:168-176 | the converted time is the true one exactly when elapsed ticks times 10^6 fit in 64 bits |
| TimeSourceRuns.AgreementKeepsStanding | lib/time/time.c:178-200 | sources truly within the tolerated drift are never blamed while their products fit in 64 bits |
| TimeSourceRuns.AgreementBlamedIff | lib/time/time.c:168-200 | a validation of sources that agree blames each exactly when the product of the other does not fit, as long as one of the two fits |
| TimeSourceRuns.AgreementEnds | lib/time/time.c:168-171 | two clocks 11 microseconds apart after 213 days: the primary shows 0 |
| TimeSourceRuns.NeitherFits | lib/time/time.c:168-200 | three pairs of agreeing readings with neither product in range: the primary, the secondary, nobody is ahead |
| TimeSourceRuns.RightClockRetired | lib/time/time.c:187-210 | a run with the timer at half speed: after four reads the correct secondary is unhealthy and the slow timer active |
| TimeSourceRuns.ReadGoesBackIff | lib/time/time.c:267-293 | with a counter that does not fall, a read goes back exactly when it is the fourth failure of the primary and the real-time clock has fewer ticks |
| TimeSourceRuns.HandoverGoesBack | lib/time/time.c:212-281 | with all reads of a call at one instant and a timer at least as fast as the other clock, every handover goes back |
| TimeSourceRuns.TimeGoesBack | lib/time/time.c:267-293 | a run whose fourth read starts at 10000000 and returns 294912 |
| TimeSourceRuns.FallbackNeverUsed | lib/time/time.c:233-260 | over every run and every answer of the hardware, the software counter is never active and its error never reported |
| TimeSourceRuns.ClockStuckIffTimerFails | lib/time/time.c:233-271 | the clock shows 0 at every read exactly as long as no initialisation found a working timer |
| LogEntry.CodecRoundTrip | lib/logging/log_common.h:68-79 | the 20-byte layout loses nothing, in either direction |
| LogEntry.FieldsOfBytes | lib/logging/log_common.h:68-79 | each field by the bytes at its offset, lowest first; intact exactly when the first 18 bytes sum to the last two |
| LogEntry.ClientChecksum | lib/logging/log_core.c:393-407 | the wrapping 16-bit loop computes the plain byte sum of the payload |
| LogEntry.ServiceChecksum | services/logger/logger_service.c:52-67 | so does the truncated 32-bit loop |
| LogEntry.AlterationCaught | lib/logging/log_core.c:417-433 | an altered payload passes exactly when its byte sum is unchanged; one altered byte never passes |
| LogEntry.CreateEntry | lib/logging/log_core.c:565-613 | the result and the entry for all parameters and all answers of the two system calls |
| LogEntry.Created | lib/logging/log_core.c:574-612 | success and an intact entry exactly for a known level, tag and message when both system calls succeed |
| LogBuffer.Buffer.CalculateChecksum | lib/logging/log_core.c:66-80 | the loop computes the byte sum of the 1288 bytes before the checksum field |
| LogBuffer.Buffer.UpdateChecksum | lib/logging/log_core.c:326-327 | the stored checksum is the sum cut to 16 bits |
| LogBuffer.Buffer.VerifyIntegrity | lib/logging/log_core.c:119-147 | the checks in their order |
| LogBufferRuns.IntegrityIff | lib/logging/log_core.c:119-147 | on every state: no error exactly when the indices, the checksum and the count are right; which error otherwise |
| LogBufferRuns.FailedCheckRefuses | lib/logging/log_core.c:295-383 | on every state, an operation that fails the check changes nothing and reports it; a put looks first at its index |
| LogBufferRuns.IndicesInImage | lib/logging/log_common.h:87-94 | where the four indices lie behind the entries |
| LogBuffer.Buffer.Reset | lib/logging/log_core.c:178-188 | the initialised buffer |
| LogBuffer.Buffer.Append | lib/logging/log_core.c:313-324 | the copy and the index updates of a put |
| LogBuffer.Buffer.PutSafe | lib/logging/log_core.c:295-337 | a put on every state, sound or corrupt |
| LogBuffer.Buffer.GetSafe | lib/logging/log_core.c:348-383 | a get on every state it is defined on |
| LogBuffer.LogSystem.Record | lib/logging/log_core.c:448-504 | lazy initialisation, parameter checks, entry creation and put |
| LogBufferRuns.ImageSum | lib/logging/log_core.c:66-80 | the checksum can be read off the fields |
| LogBufferRuns.PutSound | lib/logging/log_core.c:295-337 | a put that fits appends, dropping the oldest when full; one that does not fit reports corruption |
| LogBufferRuns.GetSound | lib/logging/log_core.c:348-383 | a get removes the oldest entry and never raises the sum |
| LogBufferRuns.PoisonedRefuses | lib/logging/log_core.c:135-138 | a spoilt buffer refuses every operation unchanged |
| LogBufferRuns.AlteredByteRefused | lib/logging/log_core.c:119-147 | any single altered byte before the checksum field makes the next operation fail without an effect |
| LogBufferRuns.RunBehaviour | lib/logging/log_core.c:295-383 | any run is a queue of the newest 64 entries up to the first put that does not fit, and refusals from there on |
| LogBufferRuns.InitSound | lib/logging/log_core.c:178-188 | initialisation makes a sound, empty buffer |
| LogBufferRuns.RoomForEqualRecords | lib/logging/log_core.c:326-333 | exactly how many equal records a fresh buffer takes, for every number |
| LogBufferRuns.LightRunFits | lib/logging/log_core.c:326-333 | records of byte sum at most w with 64 w + 254 < 65536 never spoil the buffer, in any run from any sound buffer of such records |
| LogBufferRuns.LightFromFresh | lib/logging/log_core.c:178-188 | the same for every run from initialisation |
| LogBufferRuns.HeavyRecordsSpoilTheBuffer | lib/logging/log_core.c:326-333 | a record of log_create_entry that spoils the buffer on its nineteenth put |
| LogClient.Client.Store | lib/logging/log_client.c:60-82 | the fallback queue drops its oldest entry when full |
| LogClient.Client.Flush | lib/logging/log_client.c:89-111 | published prefix and remaining queue, for every sequence of transport answers |
| LogClient.Successes | lib/logging/log_client.c:96-103 | the number of publishes before the first failure |
| LogClient.Client.Init | lib/logging/log_client.c:120-150 | the buffer is empty afterwards, whatever it held, and nothing is published |
| LogClient.Client.Cleanup | lib/logging/log_client.c:264-268 | the publisher is gone, the buffer as before |
| LogClient.Client.Send | lib/logging/log_client.c:166-191 | delivered, stored or refused, for every entry and answer |
| LogClient.NothingLost | lib/logging/log_client.c:60-191 | for any interleaving of sends, flushes, initialisations and cleanups: every accepted entry is in exactly one of delivered, buffered, overwritten or discarded, and the buffer is the newest 32 in order |
| LogClient.FlushSplits | lib/logging/log_client.c:96-107 | published prefix ++ remaining = old contents; empty afterwards exactly when all publishes succeed |
| LogClient.FlushRefused | lib/logging/log_client.c:89-93 | without initialisation or publisher a flush does nothing |
| LogClient.StoredNeverDelivered | lib/logging/log_client.c:89-150 | in runs without outside flushes, delivered is exactly what sends published themselves, and every stored entry is buffered, overwritten or discarded |
| LogClient.InitDiscards | lib/logging/log_client.c:120-150 | an initialisation delivers nothing, and discards nothing exactly when no stored entry waits |
| LogClient.NothingDiscardedIff | lib/logging/log_client.c:120-191 | a run discards nothing exactly when no initialisation comes after a stored entry |
| LoggerService.Service.Init | services/logger/logger_service.c:151-180 | six empty level buffers, the service running exactly when its registration succeeds, and the first flush time |
| LoggerService.Service.BufferPut | services/logger/logger_service.c:119-144 | stored exactly when intact, of a known level and not full |
| LoggerService.Service.ProcessMessage | services/logger/logger_service.c:293-349 | the verdict on every message, and the level buffers after it |
| LoggerService.Service.GetStatus | services/logger/logger_service.c:356-399 | the reported total is what the buffers hold, and usage never exceeds 100 percent |
| LoggerService.VerdictOfBytes | services/logger/logger_service.c:293-349 | what is answered to null, short, long, spoilt and good messages, by their bytes |
| LoggerService.FirstHundredPerLevel | services/logger/logger_service.c:119-144 | each level buffer holds, byte for byte, the first 100 messages with 20 bytes that sum up and byte 6 equal to its level |
| LoggerService.StoredEntriesIntact | services/logger/logger_service.c:312-327 | stored entries are intact, of their buffer's level, and byte for byte a message |
| LoggerService.ReportedTotal | services/logger/logger_service.c:363-375 | the total is the sum over the levels of min(100, arrivals) |
| LogParser.Parser.ValidateEntry | tools/log_parser/log_parser.c:192-223 | valid exactly when intact and of a known level, with the counters it touches |
| LogParser.Parser.ParseRecord | tools/log_parser/log_parser.c:604-621 | the counters and the decision to print for one record |
| LogParser.Parser.ShouldOutput | tools/log_parser/log_parser.c:611-621 | true exactly when some filter matches, or there is none |
| LogParser.Parser.ProcessFile | tools/log_parser/log_parser.c:601-644 | statistics and printed records of any byte stream |
| LogParser.AdvanceTallies | tools/log_parser/log_parser.c:275-280 | the 32-bit counters hold the tallies modulo 2^32 |
| LogParser.StreamAccounted | tools/log_parser/log_parser.c:273-299 | total = floor(length / 20) = valid + corrupted + level-rejected, and unknown <= valid |
| LogParser.SelectChooses | tools/log_parser/log_parser.c:610-643 | the output is the subsequence of exactly the matching records |
| LogParser.StreamChooses | tools/log_parser/log_parser.c:610-643 | the same by bytes: the sum is right, the level below 4, and some filter, if there are any, has the tag and a minimum level not above the record's |
| LogParser.KindOfBytes | tools/log_parser/log_parser.c:192-223 | how a record is counted, by its bytes |
| LogParser.StricterFilter | tools/log_parser/log_parser.c:611-621 | raising a minimum level never adds a record |
| LogParser.MoreFilters | tools/log_parser/log_parser.c:611-621 | one more filter next to others never takes a record away |
| LogParser.WholeTag | tools/log_parser/log_parser.c:611-621 | a filter with minimum level 0 lets through exactly the valid records of its tag |
| LogParser.ReadsBackWritten | tools/log_parser/log_parser.c:273-275 | written records read back, whatever unfinished record follows |
| LogParser.WritesBackRead | tools/log_parser/log_parser.c:273-275 | re-encoding what was read gives the stream back |
| LogParser.PipelineRoundTrip | tools/log_parser/log_parser.c:273-299 | entries of log_create_entry come out one and all, in order, all valid |
| LogParser.RefusalReason | lib/logging/log_core.c:574-592 | refused for the parameters first, then for the process id, then for the time |
| LogParser.PipelineFromCalls | lib/logging/log_core.c:565-613 | record i of the written stream holds the arguments of call i at their offsets, and the parser prints entries with those arguments, in order |
| Batch.Create | lib/libipc/ipc_batch.c:22-66 | the division guard admits exactly the sizes whose product fits in a size_t |
| Batch.MessageBatch.Add | lib/libipc/ipc_batch.c:75-101 | the message is packed behind the others, or only the error counter changes |
| Batch.MessageBatch.CopyIn | lib/libipc/ipc_batch.c:95-97 | the memcpy writes one message at its offset and keeps everything before it |
| Batch.MessageBatch.Send | lib/libipc/ipc_batch.c:110-143 | what is published, cut by the message size, is the messages added |
| Batch.MessageBatch.Clear | lib/libipc/ipc_batch.c:245-255 | an empty batch |
| Batch.MessageAt | lib/libipc/ipc_batch.c:95-97 | message i lies at offset i times the message size |
| Batch.CutFlatten | lib/libipc/ipc_batch.c:128-133 | cutting the packed bytes gives the messages back |
| Batch.FlattenCut | lib/libipc/ipc_batch.c:128-133 | packing the cut pieces gives the bytes back |
| Batch.HoldsFirstOffered | lib/libipc/ipc_batch.c:75-101 | after any run the batch holds the first messages since the last clear, as many as fit |
| Batch.RefusedAdds | lib/libipc/ipc_batch.c:75-93 | the adds that fail are the null pointers and those after as many messages as fit since the last clear |
| Topics.ValidateTopic | lib/libipc/ipc_topics.c:131-186 | for every string the loops give the answer of the grammar, error code included |
| Topics.Reserved | lib/libipc/ipc_topics.c:167-183 | the prefix tests decide whether the first segment is kernel or safety |
| Topics.CountSlashes | lib/libipc/ipc_topics.c:143-149 | the loop counts the slashes |
| Topics.FormatByTests | lib/libipc/ipc_topics.c:143-165 | the slash tests accept exactly three non-empty slash-free segments |
| Topics.ValidIff | lib/libipc/ipc_topics.c:131-186 | each of the four verdicts in closed form |
| Topics.DecompositionUnique | lib/libipc/ipc_topics.c:143-165 | a topic splits into segments in one way only |
| Topics.TopicCategory | lib/libipc/ipc_topics.c:345-374 | the number of the first segment's name, or none |
| Topics.CategoryByFirstSegment | lib/libipc/ipc_topics.c:350-371 | the category depends on the first segment only |
| Topics.BuildTopic | lib/libipc/ipc_topics.c:194-308 | a valid topic of the asked category, for exactly the parameters that name one and are not SAFETY |
| Topics.Built | lib/libipc/ipc_topics.c:207-305 | everything the builder writes is a topic of its category, valid unless the category is SAFETY |
| Topics.PredefinedSystemTopics | lib/libipc/ipc_topics.c:210-252 | the texts for the SYSTEM category, for all its types, are the predefined names |
| Topics.PredefinedTopics | lib/libipc/ipc_topics.c:254-300 | the texts for the other seven categories, whatever the further parameters |
| Topics.ClientTopic | lib/libipc/ipc_topics.h:219 | system/logging/info is what the builder writes for its parameters |

## Left out

- Scheduler.Kernel.RunIteration: does not model `scheduler_check_deadlines`, which only logs, nor the delay and `scheduler_tick`.
- Scheduler.Kernel.FeasibilityCheck: does not model the rounding of `float`.
- Memory.Kernel.InitPool: asks for at most 2048 blocks, the most an 8-bit byte index reaches, and for sizes that do not wrap a `size_t`; the callers use at most 64 blocks and 4096 bytes.
- MemoryRuns.LiveBlocksApart: speaks of clean runs; `FirstBlockHandedOutTwiceIff` shows that it fails otherwise.
- TimeSources.TimeContext.ValidateSources: the read at `lib/time/time.c:155` calls back into the function that validates, without an end; it is modelled as the raw read of lines 276-292.
- TimeSources.TimeContext.TickCount: its validation uses the same raw read.
- LogClient.Client.Send: `log_verify_entry_integrity` has no definition in the repository; the checksum test of its `_safe` variant is used.
- LogParser.Parser.ProcessFile: failures to open the file and the text of the output are not modelled, only which records are printed; `log_parser_process_file` prints nothing in formats other than text.
- LoggerService.Service.BufferPut: a level buffer is a record in an array, replaced as a whole, where the source updates its fields in place.
- Batch.MessageBatch.Send: the transport's answer is an input; receiving batches is a placeholder in the source.
- Getters and counters of the batch, the allocator and the clock, power modes of the scheduler, delays: one-line reads or log-only effects.
- Configuration functions of the logger, storage adapters, status messages over IPC: straight-line copies and stubs.
- `kernel/core/ipc.c`, `kernel/core/syscall.c`, `kernel/core/interrupt.c`, the board support package, the watchdog, the system monitor and the priority table: stubs, tables and branch ladders that would add only easy members.
