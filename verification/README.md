# Verified models of the kernel's inline algorithms

This project models the algorithms that live in the headers of the Linux 3.4 `include/` tree as inline
functions and macros: the lock fast paths, the atomics of a machine that only has interrupt disabling,
page-table range walking, GEM object counting, scatterlist chaining, the RAID-5 XOR kernels, 20.12 fixed
point, the real-time clock, checksum folding and page orders.

How the concurrent headers are modelled. Each shared word comes with the standing of every thread (idle,
holding, failed, queued, in the middle of an operation). An *action* is one atomic step by one thread; a
step that is not possible does nothing. A *run* is any sequence of actions, so a statement about every run
is a statement about every interleaving. Atomic operations are single, sequentially consistent steps. The
functions of the headers are methods of a class that holds the shared word; what other threads do inside a
function's windows is passed in as a run `env`, and is arbitrary.

| file | models |
|---|---|
| `Threads.dfy` | weighted sums over threads, the accounting device of the lock and count protocols |
| `Words.dfy` | unsigned types, powers of two, bits, the wrap-around of an int, remainders |
| `RwSemaphore.dfy` | `asm-generic/rwsem.h` |
| `MutexSpec.dfy` | the mutex both fast paths refine, from `linux/mutex.h` |
| `MutexXchg.dfy`, `MutexDec.dfy` | `asm-generic/mutex-xchg.h`, `asm-generic/mutex-dec.h` |
| `UpProcessor.dfy` | one processor with nested interrupt frames, for any operation done with interrupts off |
| `UpProgress.dfy` | that this processor completes its operations and takes its interrupts |
| `UpAtomics.dfy`, `AtomicInt.dfy` | `asm-generic/atomic.h`, `cmpxchg.h`, `cmpxchg-local.h`, `irqflags.h` |
| `PageWalk.dfy` | `asm-generic/pgtable.h`, `pgtable-nopud.h`, `pgtable-nopmd.h` |
| `GemObject.dfy` | the GEM part of `drm/drmP.h` |
| `Scatterwalk.dfy` | `crypto/scatterwalk.h` over `linux/scatterlist.h` |
| `XorBlocks.dfy` | `asm-generic/xor.h` |
| `FixedPoint.dfy` | `drm/drm_fixed.h` over `asm-generic/div64.h` |
| `RealTimeClock.dfy` | `asm-generic/rtc.h` |
| `Checksum.dfy` | `asm-generic/checksum.h`, after section 1 of RFC 1071 |
| `PageOrder.dfy` | `asm-generic/getorder.h` over `asm-generic/bitops` |

Where the code does less than one might expect of it, the model follows the code and states the exact
condition:

- The rw-semaphore lets a writer hold alone in every run of n threads if and only if n is at most half the
  range of the active mask (`RwSemaphore.ExclusionExactly`), and the same bound is exact for the account of its
  word (`RwSemaphore.BoundIsExact`); with one thread more a reader gets in beside a writer
  (`RwSemaphore.BeyondTheBound`).
- The decrement mutex excludes in every run of n threads if and only if n is at most 2^31
  (`MutexDec.BoundIsExact`). Its contention mark is lost by the slow store of an unlocker and by no other
  step (`MutexDec.MarkStep`); that store may wipe out a negative count no unlocker has met
  (`MutexDec.SlowStoreErasesMark`).
- The GEM counters are 32-bit. A run keeps `0 <= handle_count <= refcount` if and only if never more than
  2^31 - 1 references are owned (`GemObject.RefcountCoversHandles`). The destructor is right in every run with
  at most b references owned if and only if b is below 2^32 (`GemObject.BoundIsExact`).
- `linux/atomic.h:6-18` promises that `atomic_add_unless` adds whenever the counter is not `u`. With a
  64-bit long the generic compare-and-exchange compares a zero-extended counter with a sign-extended
  expected value, so on a negative counter it reports success without adding. The promise holds if and only
  if the long is 32 bits wide, the counter is not negative, or it is `u` (`AtomicInt.AddUnlessExact`).
- `scatterwalk_crypto_chain` conserves the total length if and only if the merged length is an unsigned int
  and either entries are left or the head has two slots (`Scatterwalk.ChainConserves`); a head of three slots
  can lose an entry (`Scatterwalk.ChainLosesBytes`).
- The XOR loops run before they test, so they change nothing beyond the words of a block if and only if it has
  at least one line (`XorBlocks.StaysInBlockExactly`).
- Multiplying by B and dividing by B is the identity if and only if B is at least 1.0
  (`FixedPoint.DividesBackExactly`). `dfixed_ceil` wraps to 0 above 0xfffff000 (`FixedPoint.CeilExactly`).
- `asm-generic/getorder.h:44` calls the result for size 0 undefined; both forms of the code give
  `BITS_PER_LONG - PAGE_SHIFT` (`PageOrder.FormsAgree`).

## Model

| member | source | states |
|---|---|---|
| RwSemaphore.Decode | asm-generic/rwsem.h:19-29 | within the thread bound each test the header makes on the word (sign, zero, write bias, masked part) reads off the number of active entries and of marks |
| RwSemaphore.DeltaIsAccountChange | asm-generic/rwsem.h:34-129 | what each step adds to the word is what its thread's move adds to active entries plus marks times the waiting bias |
| RwSemaphore.StepKeepsAccount | asm-generic/rwsem.h:34-129 | every step keeps word = account, and none wraps around |
| RwSemaphore.DownReadEnters | asm-generic/rwsem.h:34-38 | the fast read entry succeeds exactly when there is no writer entry and no queue |
| RwSemaphore.DownWriteEnters | asm-generic/rwsem.h:56-64 | the fast write entry succeeds exactly when there is no entry and no queue |
| RwSemaphore.StepKeepsExclusion | asm-generic/rwsem.h:34-78 | no step, fast path, trylock or slow path, lets a writer in beside another holder |
| RwSemaphore.Safety | asm-generic/rwsem.h:19-121 | in every run of at most MaxThreads threads the word is active entries plus marks times the waiting bias, fits a long, and a writer holds alone |
| RwSemaphore.BoundIsExact | asm-generic/rwsem.h:19-29 | the account holds in every run of n threads if and only if n is at most half the mask's range |
| RwSemaphore.BeyondTheBound | asm-generic/rwsem.h:34-64 | with one thread over the bound a run in which the word wraps and a queued reader is let in beside a writer |
| RwSemaphore.ExclusionExactly | asm-generic/rwsem.h:19-121 | a writer holds alone in every run of n threads if and only if n is at most half the mask's range |
| RwSemaphore.WakesExactly | asm-generic/rwsem.h:83-121 | read release calls wake exactly when the last entry leaves a queue behind; write release and downgrade exactly when a queued thread or pending writer remains |
| RwSemaphore.NoSilentStranding | asm-generic/rwsem.h:83-121 | a queue is left without any entry only by a release that calls wake or by a thread that is just queueing |
| RwSemaphore.DowngradeHandsOver | asm-generic/rwsem.h:113-121 | downgrade turns the only holder, a writer, into the only holder, a reader, and keeps the invariant |
| RwSemaphore.Semaphore.AddReturn | asm-generic/rwsem.h:126-129 | adds to the word with the wrap-around of a long and returns it |
| RwSemaphore.Semaphore.DownRead | asm-generic/rwsem.h:34-38 | one step of the machine; the slow path is due exactly when a mark is present |
| RwSemaphore.Semaphore.DownReadTrylock | asm-generic/rwsem.h:40-51 | with others at work between load and exchange and between a failed exchange and the next load, the retry loop ends; it enters where the word is the one it loaded and has no mark, or it loaded a word with a mark and changed nothing |
| RwSemaphore.Semaphore.DownWriteNested | asm-generic/rwsem.h:56-69 | one step of the machine; the slow path is due exactly when any entry or mark is present |
| RwSemaphore.Semaphore.DownWriteTrylock | asm-generic/rwsem.h:71-78 | takes the lock exactly when there is no entry and no mark |
| RwSemaphore.Semaphore.UpRead | asm-generic/rwsem.h:83-90 | wakes exactly when the last entry leaves a non-empty queue |
| RwSemaphore.Semaphore.UpWrite | asm-generic/rwsem.h:95-100 | wakes exactly when a queued thread or pending writer remains |
| RwSemaphore.Semaphore.DowngradeWrite | asm-generic/rwsem.h:113-121 | the caller becomes the only holder, as a reader; wakes exactly when a waiter or pending writer remains |
| MutexSpec.Alternation | linux/mutex.h:23-25 | in every history of the abstract mutex acquisitions and releases differ by one exactly while it is held |
| MutexXchg.StepRefines | asm-generic/mutex-xchg.h:25-109 | every exchange keeps the invariant and is a step of the abstract mutex |
| MutexXchg.MutualExclusion | asm-generic/mutex-xchg.h:25-109 | in every run at most one owner, count at most 1, and 1 exactly when nobody owns it |
| MutexXchg.Refinement | asm-generic/mutex-xchg.h:25-109 | every run, read as events, is a history of the abstract mutex |
| MutexXchg.SecondExchangeOwns | asm-generic/mutex-xchg.h:87-109 | a trylock whose second exchange returns 1 is the sole owner, and the count is negative; otherwise nothing changed hands |
| MutexXchg.MarkPersists | asm-generic/mutex-xchg.h:26-109 | once the count is negative, until an unlocker calls fail_fn it is negative or a thread that swapped the mark out is in flight |
| MutexXchg.FreeWithMarkIsTaken | asm-generic/mutex-xchg.h:63-109 | if meanwhile the mutex is free, some thread in flight takes it with its next exchange |
| MutexXchg.SlowUnlockSeesMark | asm-generic/mutex-xchg.h:63-67 | an unlocker calls fail_fn exactly when it finds the mark |
| MutexXchg.WindowRace | asm-generic/mutex-xchg.h:86-109 | a run in which the owner unlocks on the fast path inside a trylock's window, and the trylock takes the mutex and puts the mark back |
| MutexXchg.MarkNotInvented | asm-generic/mutex-xchg.h:25-109 | in every run in which no slow path has exchanged a mark in, the count is 0 exactly while the mutex is owned and 1 otherwise, no trylock opens its window and no unlocker calls fail_fn |
| MutexXchg.FastMutex.FastpathLock | asm-generic/mutex-xchg.h:25-30 | the count is 0; the caller owns a mutex that was free, or it was held and is still held by the same thread |
| MutexXchg.FastMutex.FastpathLockRetval | asm-generic/mutex-xchg.h:42-48 | the count is 0; returns 0 exactly on the fast path, else what fail_fn returns |
| MutexXchg.FastMutex.FastpathUnlock | asm-generic/mutex-xchg.h:62-69 | the count is 1 and the mutex free; fail_fn is due exactly when it was marked contended |
| MutexXchg.FastMutex.FastpathTrylock | asm-generic/mutex-xchg.h:86-109 | returns 1 exactly when the caller owns the mutex, leaves the count below 1, and never loses a negative value it found, whatever happens in its window |
| MutexDec.StepKeepsRange | asm-generic/mutex-dec.h:20-88 | the count stays between -1 minus the failed lockers and 1, and never wraps |
| MutexDec.StepRefines | asm-generic/mutex-dec.h:20-88 | every step keeps the invariant and is a step of the abstract mutex |
| MutexDec.MutualExclusion | asm-generic/mutex-dec.h:20-88 | in every run at most one thread owns or is releasing the mutex; the count is 1 exactly when none does |
| MutexDec.Refinement | asm-generic/mutex-dec.h:20-88 | every run is a history of the same abstract mutex as the exchange version |
| MutexDec.SlowStoreFreesOwn | asm-generic/mutex-dec.h:58-65 | between an increment with a result that is not positive and the slow store of 1 nobody gets the mutex, so the store frees the caller's own |
| MutexDec.MarkStep | asm-generic/mutex-dec.h:20-88 | while the count is negative or an unlocker is on its slow path, a step ends that if and only if it is the slow store |
| MutexDec.MarkPersists | asm-generic/mutex-dec.h:20-88 | in every run, once the count is negative, until a slow store it is negative or an unlocker is on its slow path |
| MutexDec.NoFastRelease | asm-generic/mutex-dec.h:58-65 | meanwhile the mutex is held, and an unlock by its owner goes to the slow path |
| MutexDec.SlowStoreErasesMark | asm-generic/mutex-dec.h:58-65 | a run in which the slow store wipes out a negative count that no unlocker has met |
| MutexDec.FastAccount | asm-generic/mutex-dec.h:20-88 | in every run in which no slow path has changed the count, it is 1 less the owner and less the failed lockers |
| MutexDec.UnlockIsFastExactly | asm-generic/mutex-dec.h:58-65 | in such a run an unlock frees the mutex at once if and only if no locker has failed |
| MutexDec.Uncontended | asm-generic/mutex-dec.h:20-88 | in every run in which no locker ever fails, every thread is idle or the owner and the count is 0 exactly while there is one |
| MutexDec.UncontendedUnlock | asm-generic/mutex-dec.h:58-65 | in such a run every unlock is fast and leaves the mutex free |
| MutexDec.BeyondTheBound | asm-generic/mutex-dec.h:20-25 | with more than 2^31 threads a run in which a decrement wraps and a second thread gets in |
| MutexDec.BoundIsExact | asm-generic/mutex-dec.h:20-88 | the mutex excludes in every run of n threads if and only if n is at most 2^31 |
| MutexDec.FastMutex.FastpathLock | asm-generic/mutex-dec.h:20-25 | the count is one less; the caller owns a mutex that was free, or it was held and is still held by the same thread |
| MutexDec.FastMutex.FastpathLockRetval | asm-generic/mutex-dec.h:37-43 | returns 0 exactly on the fast path, else what fail_fn returns |
| MutexDec.FastMutex.FastpathUnlock | asm-generic/mutex-dec.h:58-65 | the count is one more; frees the mutex, or keeps it for the slow path exactly when the count was negative |
| MutexDec.FastMutex.FastpathTrylock | asm-generic/mutex-dec.h:82-88 | returns 1 exactly when the mutex was free and is now the caller's with a count of 0; otherwise the count is unchanged |
| UpProcessor.StepKeepsValue | asm-generic/cmpxchg-local.h:24-46 | the value loaded is still the cell's at the store, so the store is the whole operation at one instant |
| UpProcessor.OneCriticalSection | asm-generic/irqflags.h:25-31 | however handlers nest, only the top frame can be inside a critical section, and then interrupts are off |
| UpProcessor.FlagRestored | asm-generic/irqflags.h:25-31 | every completed operation left the interrupt flag as it found it |
| UpProcessor.Linearizable | asm-generic/atomic.h:66-101 | the cell is the replay of the log; each completed call has its own place in the log, inside its own duration, returned what the operation returns there, and comes after the calls that returned before it began |
| UpProcessor.NothingElseCommitted | asm-generic/cmpxchg-local.h:24-46 | with no operation in progress every log entry is a completed call's |
| UpProgress.UninterruptedCall | asm-generic/cmpxchg-local.h:24-46 | over any stack of frames, six undisturbed steps complete an operation: the cell is changed and the value returned as its semantics says, and the interrupt flag is as before |
| UpProgress.FromDisabled | asm-generic/atomic.h:72-77 | from the disabled section on, an operation completes on the value then in the cell |
| UpProgress.HandlerBegins | asm-generic/irqflags.h:44-47 | while interrupts are enabled a handler may come over any frame and begin an operation |
| UpProgress.HandlerReturns | asm-generic/irqflags.h:44-47 | it returns to the frame it interrupted, which is as it was |
| UpAtomics.CounterIsSum | asm-generic/atomic.h:66-101 | under nested handlers the counter is its initial value plus all committed deltas, modulo its width |
| UpAtomics.CallsReturnSums | asm-generic/atomic.h:66-101 | each completed addition or subtraction returned that sum up to and including itself |
| UpAtomics.MaskBits | asm-generic/atomic.h:166-186 | bit by bit, v & ~mask and v | mask |
| UpAtomics.TruncateBits | asm-generic/cmpxchg-local.h:26-41 | the cast to each operand size keeps exactly its 8, 16, 32 or 64 low bits |
| UpAtomics.MaskOperations | asm-generic/atomic.h:162-188 | of every cell, the clear operation clears and the set operation sets exactly the mask's bits |
| UpAtomics.Processor.ArchLocalIrqSave | asm-generic/irqflags.h:25-31 | returns the status found and leaves interrupts disabled |
| UpAtomics.Processor.ArchLocalIrqEnable | asm-generic/irqflags.h:44-47 | leaves interrupts enabled |
| UpAtomics.Processor.ArchLocalIrqDisable | asm-generic/irqflags.h:52-55 | leaves interrupts disabled |
| UpAtomics.Processor.AtomicAddReturn | asm-generic/atomic.h:66-78 | the new value modulo the width, stored and returned, as the machine's operation; interrupt flag as found |
| UpAtomics.Processor.AtomicSubReturn | asm-generic/atomic.h:89-101 | undoes the addition modulo the width; interrupt flag as found |
| UpAtomics.Processor.AtomicClearMask | asm-generic/atomic.h:162-170 | every bit of the cell is set exactly if it was and is not in the mask; interrupt flag as found |
| UpAtomics.Processor.AtomicSetMask | asm-generic/atomic.h:181-188 | every bit of the cell is set exactly if it was or is in the mask; interrupt flag as found |
| UpAtomics.Processor.XchgSized | asm-generic/cmpxchg.h:24-80 | for each operand size returns the old cell and stores the truncated operand; interrupt flag as found |
| UpAtomics.Processor.CmpxchgLocalGeneric | asm-generic/cmpxchg-local.h:13-64 | for each operand size stores exactly when the zero-extended cell equals the expected word, and returns the old cell |
| AtomicInt.ComparisonExact | asm-generic/cmpxchg-local.h:34-36 | the size-4 comparison succeeds exactly when the ints are equal and, with a 64-bit long, not negative |
| AtomicInt.CmpxchgIsCasExactly | asm-generic/atomic.h:136-141 | atomic_cmpxchg is a compare-and-exchange for every counter if and only if the long is 32 bits wide or the expected value is not negative |
| AtomicInt.Counter.AddUnless | asm-generic/atomic.h:145-152 | under any interference the loop ends and returns the counter c of its last look; if c is u it wrote nothing, else it made one step from c to c + a, provided the long is 32 bits wide or c is not negative |
| AtomicInt.ExchangeAtPlace | asm-generic/cmpxchg-local.h:24-46 | on the machine with nested handlers, a completed atomic_cmpxchg acts at one place of the log between its call and its return, and there exchanges exactly when the values are equal and the width allows it |
| AtomicInt.AddUnlessOnMachine | asm-generic/atomic.h:145-152 | with handlers at every machine step, the loop returned what the counter was at its last look, which comes after its read; if that is u it wrote nothing, else nothing before its last exchange, which took the counter from c to c + a, or left it on a negative c with a 64-bit long |
| AtomicInt.AddUnlessFailsOnNegative | asm-generic/atomic.h:145-152 | a concrete negative counter on which success is reported and nothing is added |
| AtomicInt.AddUnlessExact | linux/atomic.h:6-18 | the documented effect of a non-zero addition holds if and only if the long is 32 bits wide, the counter is not negative, or it is u |
| PageWalk.MaskIsRemainderRemoved | asm-generic/pgtable.h:228-231 | masking to a multiple of the entry size removes the remainder |
| PageWalk.MaskIsAnd | asm-generic/pgtable.h:228-231 | bit by bit the mask is x & ~(SIZE - 1) for SIZE a power of two |
| PageWalk.Boundary | asm-generic/pgtable.h:228-231 | the boundary is the next multiple of the entry size, or 0 when that is the top of memory |
| PageWalk.AddrEndExact | asm-generic/pgtable.h:222-245 | addr_end is the next boundary or the end, whichever comes first, also when the boundary or the end wraps to 0 |
| PageWalk.WalkPartitions | asm-generic/pgtable.h:222-245 | the walk of any non-empty range ends; its chunks are adjacent, non-empty, from start to end, each in one entry, and break only at boundaries |
| PageWalk.WalkCovers | asm-generic/pgtable.h:222-245 | every address of the range is in exactly one chunk, every other in none |
| PageWalk.PartitionUnique | asm-generic/pgtable.h:222-245 | no other sequence of chunks is such a partition |
| PageWalk.WalkSplit | asm-generic/pgtable.h:228-245 | a walk may be cut at any entry boundary inside the range |
| PageWalk.FoldedExactly | asm-generic/pgtable-nopud.h:57-58 | the folded `(end)` equals the generic formula if and only if the range lies in one entry |
| PageWalk.FoldedAgrees | asm-generic/pgtable-nopmd.h:64-65 | on every range its parent passes down a folded level equals a table of the parent's size |
| PageWalk.WalkPmdRange | asm-generic/pgtable.h:240-245 | the innermost loop visits the chunks of the flat walk |
| PageWalk.WalkPudRange | asm-generic/pgtable.h:233-245 | the two inner loops together visit the chunks of one flat walk |
| PageWalk.WalkPageRange | asm-generic/pgtable.h:228-245 | the three nested loops, with any levels folded, visit the chunks of one flat pmd-size walk in the same order |
| PageWalk.ShiftTables | asm-generic/pgtable-nopud.h:15-18 | tables given by ordered shifts, folded levels included, meet what the walk needs |
| GemObject.StepsFindObject | drm/drmP.h:1626-1698 | every step but the last mutex_unlock finds the object referenced and not destroyed |
| GemObject.StepKeepsInv | drm/drmP.h:1626-1698 | with 32-bit counters, every step after which fewer than 2^32 references are owned keeps both counters equal to what callers and operations in flight own, modulo 2^32 |
| GemObject.RefcountCoversHandles | drm/drmP.h:1655-1678 | a run has 0 <= handle_count <= refcount at every moment if and only if never more than 2^31 - 1 references are owned in it |
| GemObject.DropSeesHandle | drm/drmP.h:1662-1669 | under the invariant a drop of a handle taken earlier never meets the early return |
| GemObject.HandleFreePerTransition | drm/drmP.h:1675-1676 | in every run the moments at which handle_count goes from 1 to 0 are as many as the calls of drm_gem_object_handle_free made and still due |
| GemObject.HandleFreeFindsObject | drm/drmP.h:1675-1677 | with fewer than 2^32 references owned, a thread that owes that call finds the object referenced and not destroyed |
| GemObject.DestructorOnce | drm/drmP.h:1632-1648 | with fewer than 2^32 references owned, the destructor has run once exactly when nothing is owned, by the step that gave up the last reference, under the mutex in the unlocked form; nothing but that mutex_unlock follows |
| GemObject.NothingLeaks | drm/drmP.h:1626-1698 | with fewer than 2^32 references owned, when nobody holds anything and nothing is in flight both counts are 0 and the destructor has run |
| GemObject.BeyondTheBound | drm/drmP.h:1626-1678 | with 2^32 references owned, a run whose drop returns early and whose next put destroys the object under 2^32 - 1 handles |
| GemObject.BoundIsExact | drm/drmP.h:1626-1698 | the destructor is right in every run with at most b references owned if and only if b is below 2^32 |
| GemObject.DrmGemObject.Reference | drm/drmP.h:1626-1630 | one reference more, as a step of the object's run |
| GemObject.Unreference | drm/drmP.h:1632-1637 | nothing for null; else one reference less, as a step of the object's run, and within the bound the destructor has run exactly if it was the last |
| GemObject.UnreferenceUnlocked | drm/drmP.h:1639-1648 | the same between lock and unlock of the mutex, which is free afterwards |
| GemObject.DrmGemObject.HandleReference | drm/drmP.h:1655-1660 | one reference and one handle more, whatever happens between its two steps |
| GemObject.HandleUnreference | drm/drmP.h:1662-1678 | returns early exactly on a handle count of 0, which within the bound does not happen; else handle_free exactly when this decrement reached 0, then the put, the destructor exactly if it was the last, whatever happens in between |
| GemObject.HandleUnreferenceUnlocked | drm/drmP.h:1680-1698 | the same with the put under the mutex |
| Scatterwalk.TraversalUnique | crypto/scatterwalk.h:41-47 | a well-formed list has one traversal |
| Scatterwalk.ChainTraversal | crypto/scatterwalk.h:49-62 | after chaining, also with a merged length that wraps to 0, the traversal is the head's data entries followed by what is left of the list in order, or the head's first entry alone when nothing is left |
| Scatterwalk.ChainSegments | crypto/scatterwalk.h:49-62 | the pages, offsets and lengths met after the chaining are those of the head's data entries followed by those left of the list, with the merged length in the first |
| Scatterwalk.MergedExactly | crypto/scatterwalk.h:53-56 | the merged length is the sum if and only if that is an unsigned int |
| Scatterwalk.JoinedBytes | crypto/scatterwalk.h:49-62 | how many bytes are reachable from the head afterwards |
| Scatterwalk.ChainConserves | crypto/scatterwalk.h:49-62 | the bytes of head and list are all reachable if and only if the merged length does not wrap and either entries are left or the head has two slots |
| Scatterwalk.ChainLosesBytes | crypto/scatterwalk.h:49-62 | a head of three slots and a list of one entry whose chaining loses a byte |
| Scatterwalk.SgSetPage | linux/scatterlist.h:57-93 | changes the page, offset and length of one entry and keeps its flag bits |
| Scatterwalk.SgMarkEnd | linux/scatterlist.h:162-172 | sets the end flag and clears the chain flag of one entry |
| Scatterwalk.SgChain | crypto/scatterwalk.h:34-39 | only the last slot changes: no length, no end flag, linked to the second list |
| Scatterwalk.CryptoChain | crypto/scatterwalk.h:49-62 | entry by entry: the head keeps page and offset and gets the merged length, its last slot becomes the link or the head the end, all else stays; and the array is the one the traversal results are about |
| Scatterwalk.Traverse | crypto/scatterwalk.h:41-47 | following sg_next visits the list's entries in order and ends, with the total length |
| XorBlocks.XorBits | asm-generic/xor.h:24-31 | bit k of the XOR is set exactly when one operand's bit k is |
| XorBlocks.XorFits | asm-generic/xor.h:24-31 | the XOR of two words fits the word |
| XorBlocks.XorLine8 | asm-generic/xor.h:24-31 | one line done in memory: p1 gets the XOR of all sources, the rest unchanged |
| XorBlocks.XorLine32 | asm-generic/xor.h:109-133 | the same through eight registers |
| XorBlocks.XorPlain | asm-generic/xor.h:18-302 | for two to five blocks exactly bytes / sizeof(long) / 8 lines of p1, or one line if that is 0, become the pointwise XOR, also when a source is p1 itself |
| XorBlocks.XorPrefetch | asm-generic/xor.h:304-678 | the same despite one line fewer and the jump back for the last one |
| XorBlocks.XorBlock | asm-generic/xor.h:680-710 | all four templates compute the same |
| XorBlocks.TouchedExactly | asm-generic/xor.h:18-35 | the words gone over are those of bytes / sizeof(long) / 8 lines if and only if the block has at least one line |
| XorBlocks.TouchedIsWholeLines | asm-generic/xor.h:18-35 | from one line up, they are a multiple of 8 words, fit in the block, and eight more would not |
| XorBlocks.WholeBlockTouched | asm-generic/xor.h:18-35 | a block of whole lines is gone over to its last word |
| XorBlocks.ShortBlockSpills | asm-generic/xor.h:18-35 | on every block of less than a line there is memory in which a word beyond the block changes |
| XorBlocks.StaysInBlockExactly | asm-generic/xor.h:18-678 | the routines change nothing beyond the words of the block if and only if it has at least one line |
| XorBlocks.ColumnXorAnyOrder | asm-generic/xor.h:680-710 | blocks may be XORed in any order |
| XorBlocks.LostBlockRecovered | asm-generic/xor.h:680-710 | any lost block is the XOR of parity and survivors |
| XorBlocks.Accumulate | asm-generic/xor.h:680-710 | any run of calls, of any arities and templates, XORs all their sources into p1 |
| XorBlocks.Recover | asm-generic/xor.h:680-710 | from the parity, the survivors in any order, grouping and template give back the lost block |
| XorBlocks.RecoverBlock | asm-generic/xor.h:680-710 | a lost block of whole lines is given back whole |
| FixedPoint.DoDiv64 | asm-generic/div64.h:25-31 | quotient and remainder of the division |
| FixedPoint.DoDiv32 | asm-generic/div64.h:40-50 | the same through the short cut for a small dividend |
| FixedPoint.MulRounds | drm/drm_fixed.h:36 | the product is rounded to nearest, half up, and the sum never exceeds 64 bits |
| FixedPoint.Div | drm/drm_fixed.h:58-66 | the low 32 bits of the rounded quotient, with either form of do_div |
| FixedPoint.DivRounds | drm/drm_fixed.h:58-66 | the quotient is rounded to nearest |
| FixedPoint.MulThenDiv | drm/drm_fixed.h:36-66 | multiplying by B of at least 1.0 and dividing by B returns A |
| FixedPoint.BelowOneCollides | drm/drm_fixed.h:36 | below 1.0 two different values have the same product |
| FixedPoint.DividesBackExactly | drm/drm_fixed.h:36-66 | that law holds for B if and only if B is at least 1.0 |
| FixedPoint.FloorIsGreatest | drm/drm_fixed.h:41-46 | the greatest whole value not above A |
| FixedPoint.CeilExactly | drm/drm_fixed.h:48-56 | the least whole value not below A if and only if it is representable, else 0 |
| RealTimeClock.BcdRoundTrip | linux/bcd.h:6-7 | below 100 the code is the two decimal digits in two nibbles, and decoding gives the value back |
| RealTimeClock.BcdMode | asm-generic/rtc.h:164-165 | a chip is in BCD unless bit 2 of its control register is set and it is not always in BCD |
| RealTimeClock.AcceptedExactly | asm-generic/rtc.h:133-159 | the years taken are 0 to 169, or 0 to 255 on a DECstation |
| RealTimeClock.RegistersAfterSet | asm-generic/rtc.h:126-190 | which digits or numbers each register holds after a set, months from 1 and the year within its century, and that both control registers are as before |
| RealTimeClock.LeapYearHas366Days | asm-generic/rtc.h:139-140 | the leap-year test holds exactly of the years of 366 days in the Gregorian calendar |
| RealTimeClock.DecstationYears | asm-generic/rtc.h:137-151 | a DECstation's chip is given 1972 for every month of a year of 366 days and from March on, and 1973 before, with the real year or the one before it beside |
| RealTimeClock.FieldsComeBack | asm-generic/rtc.h:72-194 | every field but the year of a valid, accepted time comes back |
| RealTimeClock.YearComesBack | asm-generic/rtc.h:79-194 | the year that comes back, for every accepted year, with and without the DECstation branch |
| RealTimeClock.SetThenGet | asm-generic/rtc.h:72-194 | a valid time is accepted and comes back unchanged if and only if tm_year is 70..169, or 70..255 on a DECstation |
| RealTimeClock.Clock.WriteRegisters | asm-generic/rtc.h:174-190 | the time registers hold the bytes written and both control registers are as before |
| RealTimeClock.Clock.AdjustYear | asm-generic/rtc.h:126-162 | which years are rejected, and the year kept for the chip and for the DECstation's register |
| RealTimeClock.Clock.SetRtcTime | asm-generic/rtc.h:116-195 | a rejected year gives -EINVAL and leaves every register unchanged; otherwise 0 and the registers of the specification |
| RealTimeClock.Clock.GetRtcTime | asm-generic/rtc.h:45-109 | the time the registers stand for; other fields of the record stay |
| RealTimeClock.Clock.SetAndGet | asm-generic/rtc.h:45-195 | set then get on one chip gives the time back if and only if the year is representable; control registers restored |
| Checksum.CsumFold | asm-generic/checksum.h:50-56 | the folded, complemented sum |
| Checksum.FoldCongruent | asm-generic/checksum.h:52-54 | two folds reduce any 32-bit sum to the 16-bit representative modulo 65535, and to 0 only from 0 |
| Checksum.ChecksExactly | asm-generic/checksum.h:50-56 | a packet folds to 0 if and only if its total is positive and a multiple of 65535 |
| Checksum.ChecksumVerifies | asm-generic/checksum.h:50-56 | wherever the checksum of the other words is put, the packet folds to 0 |
| Checksum.OneWordChange | asm-generic/checksum.h:50-56 | exactly which single-word changes of a packet that checks go unnoticed |
| PageOrder.SignificantExactly | asm-generic/bitops/fls.h:4-10 | the position of the highest bit is at most k exactly for numbers below 2^k |
| PageOrder.Fls | asm-generic/bitops/fls.h:12-39 | five halving steps find the highest bit of every 32-bit word |
| PageOrder.FlsLong | asm-generic/bitops/__fls.h:12-41 | six halving steps find the highest bit of every non-zero 64-bit word |
| PageOrder.GetOrder | asm-generic/getorder.h:12-25 | on 32 and 64 bits the least order whose pages hold the size, and the full width for size 0 |
| PageOrder.OrderIsLeast | asm-generic/getorder.h:27-42 | the order is at most k exactly when the size is at most 2^k pages |
| PageOrder.FormsAgree | asm-generic/getorder.h:49-57 | the constant form and the runtime form agree for every n, 0 included, at every word size |

## Left out

- The slow paths of the rw-semaphore and the mutexes (`rwsem_*_failed`, `rwsem_wake`, `fail_fn`) are not in these headers: a failed rw-semaphore thread queues and withdraws its bias, a non-empty queue holds one waiting bias, a queued reader is let in when the word shows no writer entry and a queued writer when it shows no entry, a failed mutex locker exchanges in a negative value and owns the mutex if it got 1 back; wait lists, fairness and liveness are not modelled.
- Memory ordering, barriers, cache and prefetch effects: each atomic operation is one sequentially consistent step.
- GemObject.Unreference: that the caller of the locked form holds struct_mutex is not modelled; the results do not need it.
- GemObject.UnreferenceUnlocked: `wait` ends with the mutex free; that the mutex does become free is not proved.
- GemObject.HandleUnreference: the caller gives up a handle somebody took before; a drop of a handle nobody holds is not modelled.
- Scatterwalk.CryptoChain: the two lists lie in one array of entries that stands for memory, and the second list starts outside the head's slots; `scatterwalk_pagelen`, `scatterwalk_clamp` and `scatterwalk_advance` would only add easy members.
- Scatterwalk.ChainConserves: the head has at least two slots, its data entries after the first are not empty, and the list is apart from it.
- XorBlocks.XorPlain: the four arities of a family are one method over a sequence of sources, and partial overlap of two blocks is not modelled.
- XorBlocks.Accumulate: no source of the calls is the destination.
- XorBlocks.XorPrefetch: the prefetches themselves have no effect in the model.
- FixedPoint.DoDiv32: `__div64_32` is only declared, and is taken to divide.
- RealTimeClock.Clock.GetRtcTime: the wait for an update in progress and the spin lock are left out, and the clock does not tick between set and get.
- RealTimeClock.BcdRoundTrip: `bcd2bin` and `bin2bcd` are only declared, and are taken to be the usual two-digit coding.
- UpAtomics.Processor.XchgSized: operand sizes other than 1, 2, 4 and 8, a link-time error in the source, do not exist in the model.
- AtomicInt.Counter.AddUnless: interference is what handlers store just before each compare-and-exchange; AddUnlessOnMachine has handlers at every machine step, and there the end of the loop is assumed.
- Checksum.ChecksumVerifies: `csum_partial` and `csum_tcpudp_nofold` are only declared, so the accumulation with end-around carry is that of section 1 of RFC 1071; `csum_tcpudp_magic` only composes two calls.
- Page-table entry accessors and transparent-hugepage checks, which rest on architecture predicates that are not in these headers.
- `acpi/`, `crypto/gf128mul.h`, `drm/drm_mm.h` and similar headers, which declare but do not define their algorithms.
- One-line forwarding headers, ioctl packing, memory models, port and user-memory plumbing, and headers of constants and structures, which would only add easy members.
