# Models of Junction's kernel data structures and protocols

Junction is a library operating system: it serves Linux system calls inside a
user process. This project models the data structures and the step-by-step
protocols at its core and proves what they guarantee, in every run and for
every input.

Containers and objects that the source updates in place are classes whose
methods are proved against specifications. Protocols between threads are
transition systems: a state, the atomic steps, an invariant that every step
keeps, and theorems about all runs. Where a natural property is false of the
code, the code is modelled as it is, a lemma or a contract gives the exact
condition under which the property holds, and a small example shows it failing.

| files | what they model |
|---|---|
| `Areas`, `MapEdits`, `Edits`, `ModifyLoop`, `IntervalSet`, `MapCheck` | the interval map of memory areas: clear, insert, edit, merge |
| `FreeSpace`, `Regions` | the search for free addresses and the pool of regions |
| `Tracing`, `MemoryMap` | mmap, munmap, mprotect, brk, the page-access tracer |
| `Modular`, `IoVectors`, `ByteChannel`, `RingProtocol`, `Pipe` | the byte ring with wrapping counters, vectored copies, its concurrent use, parking and waking around it |
| `SignalQueue`, `Notify`, `Delivery` | signal queues, the notification protocol, nested handlers |
| `SharedMutex` | the reader-writer lock that hands over ownership |
| `InitialStack`, `ElfImage` | the initial stack and the ELF segment loader |
| `Identifiers`, `Pids` | the bitmap, the ID generator, reference-counted PIDs |
| `Futex`, `RecordLocks`, `Paths` | the futex table, POSIX record locks, path resolution and printing |

Modelling conventions. Atomics are sequentially consistent. A region under a
spin lock is one step, except in `Pipe`, where it is split at each look at the
channel because the channel changes without the lock. Bit masks (signals,
futex bitsets, bitmap words, page protections) are sets of the bits that are
set. Calls into the host kernel are pointwise changes of a page table that
succeed or change nothing; the outcome, like clocks and random bytes, is a
parameter or a nondeterministic choice. Addresses are unbounded except where
the source relies on wrap-around. The pool's plain intervals are areas whose
attributes are all fixed, which merge whenever they touch
(`Regions.PlainMergesOnTouch`).

What the proofs found, each stated with its exact condition:

- The backward scan of `FindFreeRange` subtracts without a check. With no hole
  left it wraps and reports an address instead of `ENOMEM`, and an interval
  above the upper limit makes it blind (`FreeSpace.ScanStops`,
  `FreeSpace.ScanBlind`; examples `FreeSpace.ScanWraps`,
  `FreeSpace.ScanMissesHole`). The region pool stores the wrapped range and is
  consistent afterwards if and only if there was a hole
  (`Regions.RegionPool.AllocateMMRegion`; example
  `Regions.AllocateFromFullPool`).
- The fault handler does not look at what the host grants by now. A fault that
  is handled late never leaves an access unrecorded, but it can take write
  rights from a page that was mapped anew, and the end of the trace does not
  give them back (`Tracing.FaultExact`, `Tracing.RunKeeps`; example
  `Tracing.LateFault`).
- `EnableTracing` on a map that is traced already can leave neighbours that
  should be merged (`MemoryMap.EnableStaysMerged`; example
  `MemoryMap.EnableLeavesNeighbours`). Its rseq step grants rights without
  looking at the mapping (`Tracing.RseqExact`; example
  `Tracing.RseqOnReadOnlyPage`). Host calls that fail are only logged
  (`Tracing.EnableFailingExact`, `Tracing.ProtectFailingExact`,
  `Tracing.EndFailingExact`; example `Tracing.EnableLosesAccess`).
- A break that is not page-aligned cannot grow past its page
  (`MemoryMap.BreakMovesExactly`; example `MemoryMap.UnalignedBreakIsStuck`).
- The comment on `MemoryMap::Clear` (junction/kernel/mm.h:305-309) promises an
  iterator to the first mapping after the cleared range. The code returns it
  exactly when no mapping spanned the end of the range, and otherwise skips the
  mapping it has just trimmed (`IntervalSet.ExclusiveIntervalSet.Clear`; example
  `IntervalSet.ClearSkipsRemainder`). The iterator serves only as an insertion
  hint.
- A pipe loses wakeups unless both poll sources are attached, as its
  constructors do (`Pipe.SafeIffAttached`; examples `Pipe.UnattachedReader`,
  `Pipe.UnattachedWriter`).
- A signal handler runs with `sa_mask` in place of the thread's mask, not in
  addition to it as sigaction in IEEE Std 1003.1 has it
  (`Delivery.HandlerMaskIsUnion`; example `Delivery.HandlerUnblocks`).
- The header check of the ELF loader compares address and offset modulo the
  segment's own alignment, but loading needs them to agree modulo the page size
  (`ElfImage.RightIffCongruent`; example `ElfImage.AcceptedMisload`).
- `JoinProcessGroup` releases before it acquires and does not check the group
  (`Pids.PidTable.JoinProcessGroup`; example `Pids.JoinDeadGroup`). A new
  process reads its parent's group and session twice, once to count them and
  once to use them (`Pids.PidTable.FinishCreate`; example
  `Pids.JoinWhileCreating`).
- `FutexTable::Wake` reads a count of 2^31 or more as negative and then wakes
  one waiter at most (`Futex.WakesAskedFor`; example `Futex.WakesTooFew`).
- A process can start with a current directory outside its root
  (junction/run.cc:37-38). Lookups stay inside the root if and only if the
  current directory is inside (`Paths.ContainedIffCwdInside`), printing such a
  directory does not end (`Paths.PrintingEnds`), and `..` at an unlinked
  directory reads a null pointer (`Paths.NullParentIffUnanchored`); examples
  `Paths.CwdOutsideRoot`, `Paths.UnlinkedCwd`.
- The topmost directory prints as `.`, because it is in no directory's map, and
  that resolves to the current directory (`Paths.TopRoundTrip`; example
  `Paths.CwdOutsideRoot`).
- `fcntl` record locks refuse a negative length, which IEEE Std 1003.1 defines
  as a range before the start, except the one that wraps to the whole file
  (`RecordLocks.RangeMeans`).
- A write whose reader has closed fails with `EPIPE` although its bytes are in
  the channel (`Pipe.Outcomes`).
- `F_GETLK` cannot express the length of a lock on the whole file
  (`RecordLocks.AnswerExact`; example `RecordLocks.WholeFileAnswer`).

## Model

| member | source | states |
|---|---|---|
| `Areas.CanonicalUnique` | junction/kernel/mm.cc:48-84 | two maps that are sorted, disjoint, keyed by end and free of mergeable neighbours and that mean the same at every address have the same areas, up to offsets of areas without a file |
| `MapEdits.SplitMeaning` | junction/base/interval_set.h:177-183 | splitting an area in two, with its file offset advanced, changes the meaning of no address |
| `MapEdits.MergeMeaning` | junction/kernel/mm.cc:88-93 | merging a mergeable pair changes the meaning of no address |
| `MapEdits.InsertedMeaning` | junction/base/interval_set.h:94-105 | storing an area in a cleared range and merging both ways gives exactly its addresses the new attributes |
| `MapEdits.InsertedUnmerged` | junction/base/interval_set.h:97-105 | the two merge attempts of Insert suffice: no mergeable neighbours remain |
| `MapCheck.MappingsValid` | junction/kernel/mm.cc:65-84 | the check, which compares neighbours only, accepts exactly the page-aligned maps in canonical form |
| `IntervalSet.ExclusiveIntervalSet.Clear` | junction/base/interval_set.h:54-83 | exactly the addresses in range become unmapped, all others keep type, protection, traced bit, file and file position; canonical form and alignment are kept; the iterator is the first area after the range if and only if no area spanned its end |
| `IntervalSet.ExclusiveIntervalSet.Insert` | junction/base/interval_set.h:90-106 | exactly the addresses of the item take its attributes and canonical form and alignment are kept; an item of any shape with nothing to clear is stored and merged |
| `IntervalSet.ExclusiveIntervalSet.TryMergeRight` | junction/base/interval_set.h:220-229 | the predecessor is absorbed if and only if the two may merge, the areas stay disjoint and no address changes its meaning |
| `IntervalSet.ClearSkipsRemainder` | junction/base/interval_set.h:54-83 | clearing the first page of two: the area left behind it is not the one the iterator refers to |
| `IntervalSet.ExclusiveIntervalSet.Modify` | junction/base/interval_set.h:161-202 | a protection change or the end of a trace is applied to exactly the addresses in range, in the map and in the host's page table, and canonical form is kept |
| `IntervalSet.ExclusiveIntervalSet.Find` | junction/base/interval_set.h:108-113 | finds the area that gives the address its meaning, and fails only for unmapped addresses |
| `IntervalSet.ExclusiveIntervalSet.FindFreeRange` | junction/base/interval_set.h:148-158 | the scan returns the highest fitting address, or ENOMEM when there is none, if and only if ScanSafe holds of the map and the limits |
| `Edits.EditOneMeaning` | junction/base/interval_set.h:167-198 | one iteration of Modify, with up to two splits and a merge, changes exactly the selected addresses of that area |
| `Edits.EditOneUnmerged` | junction/base/interval_set.h:171-198 | after an iteration no mergeable neighbours remain up to the area it dealt with |
| `Edits.TracerModifyProt` | junction/kernel/mm.cc:394-414 | while tracing, an untraced area gets its new rights at once, a traced one loses all host rights if any right was removed and none otherwise |
| `FreeSpace.ScanStops` | junction/base/interval_set.h:148-158 | where the scan stops, its answer is the best fit exactly when a hole exists or the wrapped address falls below the lower limit |
| `FreeSpace.ScanBlind` | junction/base/interval_set.h:149-158 | with an interval above the upper limit only the topmost bytes are considered; exactly when that is right |
| `FreeSpace.ScanWraps` | junction/base/interval_set.h:156-158 | a full range of one page: the scan answers with an address near 2^64 although nothing fits |
| `FreeSpace.ScanMissesHole` | junction/base/interval_set.h:149-158 | an interval above the limit: the scan answers with a page that is taken although a lower one is free |
| `Regions.RegionPool.AllocateMMRegion` | junction/kernel/mm.h:297-303 | the highest hole is reserved and the reserved set stays the disjoint union of the live regions if and only if there is a hole; with none, the returned range runs past 2^64 and the stored interval breaks the set even for the regions live before |
| `Regions.AllocateFromFullPool` | junction/kernel/mm.h:297-303 | one page asked of a full pool: an address near 2^64 and an inconsistent pool |
| `Regions.FullPoolBreaks` | junction/base/interval_set.h:90-106 | the wrapped interval, stored below all others and merged into the lowest, leaves the first byte of a live region unreserved or is itself no interval |
| `Regions.RegionPool.Reserve` | junction/kernel/mm.h:261-265 | registering a free range adds exactly that region to the live ones |
| `Regions.RegionPool.FreeMMRegion` | junction/kernel/mm.h:292-295 | freeing a live region removes exactly it, even when the set had merged it with its neighbours |
| `Tracing.EnableKeeps` | junction/kernel/mm.cc:192-204 | taking all host rights away and starting an empty trace establishes the whole invariant, also after late faults |
| `Tracing.FaultKeeps` | junction/kernel/mm.cc:334-386 | restoring rights to one faulting page, write only on a write fault, keeps accessible pages recorded and writable ones recorded as written, however late the fault is handled |
| `Tracing.FaultGrants` | junction/kernel/mm.cc:364-386 | after a handled fault the access is granted on the whole page with every other right of the mapping, writing only to a write fault; other pages keep theirs; the page is in the trace, no later than the fault |
| `Tracing.FaultExact` | junction/kernel/mm.cc:334-386 | a handled fault leaves untraced pages their exact rights if and only if the page is traced, the access was a write, or the page is not writable |
| `Tracing.TimelyFaultFits` | junction/kernel/mm.cc:334-386 | a fault handled while the host still refuses the access always does |
| `Tracing.LateFault` | junction/kernel/mm.cc:334-386 | a run: unmap, map anew, a late read fault, end; afterwards the host lacks a right of the mapping |
| `Tracing.ProtectKeeps` | junction/kernel/mm.cc:394-430 | mprotect during a trace never leaves a host right that the area lacks or the trace has not recorded, and keeps untraced rights exact |
| `Tracing.EndRestores` | junction/kernel/mm.cc:228-251 | ending the trace leaves no area traced, and host and area rights are equal at every mapped address if and only if untraced areas had theirs before |
| `Tracing.RunSafe` | junction/kernel/mm.cc:192-430 | in every run of enable, rseq, fault, mprotect, mmap, munmap and end, with faults handled at any time, every state grants only what the areas allow and the trace recorded, if and only if rseq areas are only where the mappings allow reads and writes |
| `Tracing.RunKeeps` | junction/kernel/mm.cc:192-430 | along a run every state has untraced rights exact if and only if every step is orderly: no late fault that takes write rights and no rseq area the mapping does not fit |
| `Tracing.NoUnrecordedAccess` | junction/kernel/mm.cc:334-386 | in every such run a right the host grants is one the area has, and on a traced page the access is in the trace, as a write if it is one |
| `Tracing.RseqExact` | junction/kernel/mm.cc:217-225 | making the pages of an rseq area readable and writable is safe if and only if the mappings there allow it, and keeps untraced rights exact if and only if they allow just that |
| `Tracing.RseqOnReadOnlyPage` | junction/kernel/mm.cc:217-225 | an rseq area on a read-only page |
| `Tracing.EnableFailingExact` | junction/kernel/mm.cc:198-204 | with failing host calls tracing is sound if and only if the failed calls had no rights to take away |
| `Tracing.EnableLosesAccess` | junction/kernel/mm.cc:198-204 | one page whose host call fails: an access that the trace will miss |
| `Tracing.ProtectFailingExact` | junction/kernel/mm.cc:394-414 | with failing host calls the invariant survives mprotect if and only if the host already had no more than the new rights on traced pages and exactly those on untraced ones |
| `Tracing.EndFailingExact` | junction/kernel/mm.cc:228-251 | with failing host calls all rights are restored if and only if the pages on which they failed had theirs |
| `MemoryMap.PageAccessTracer.RecordHit` | junction/kernel/mm.h:115-124 | times never grow, other pages keep theirs, writes only grow; the result tells the first access, or the first write for a write |
| `MemoryMap.MemoryMap.EnableTracing` | junction/kernel/mm.cc:192-207 | the loop over the areas is one enable step of the protocol: every mapping stays as it was but traced and inaccessible, and the trace is empty |
| `MemoryMap.MemoryMap.EnableRseq` | junction/kernel/mm.cc:217-225 | an rseq area of any length: safety survives if and only if its mappings allow reads and writes, exact untraced rights if and only if they allow just those |
| `MemoryMap.MemoryMap.EndTracing` | junction/kernel/mm.cc:228-251 | returns the trace, leaves every mapping as it was but untraced and the map in canonical form whatever it was before; every right is restored if and only if untraced areas had theirs; ENODATA without a trace |
| `MemoryMap.MemoryMap.HandlePageFault` | junction/kernel/mm.cc:334-386 | with a tracer exactly the accesses the area allows are handled, at whatever time: the access is granted on the whole page with the mapping's other rights, writing only to a write fault; the invariant survives if and only if the fault fits; without a tracer only a spurious execute fault is handled |
| `MemoryMap.MemoryMap.MProtect` | junction/kernel/mm.cc:615-632 | exactly the mapped addresses of the page-aligned range get the protection asked for, in the host at once except on traced pages, which keep their rights if none was taken away and lose them all otherwise; or an error and no change |
| `MemoryMap.MemoryMap.MUnmap` | junction/kernel/mm.cc:634-653 | exactly the range becomes unmapped, or an error and no change |
| `MemoryMap.RangeEndLeast` | junction/kernel/mm.cc:41-46 | the range of a call ends at the least page boundary that holds it |
| `MemoryMap.MemoryMap.MMap` | junction/kernel/mm.cc:515-604 | every address of the mapping has the protection, type and file byte asked for and nothing else changes; without MAP_FIXED nothing mapped is replaced and it fails only for lack of room or by the host, as long as no area lies above the map's range |
| `MemoryMap.MemoryMap.SetBreak` | junction/kernel/mm.cc:462-513 | the break moves exactly under the stated test; pages gained are readable and writable heap, pages given up are unmapped, nothing else changes |
| `MemoryMap.EnableStaysMerged` | junction/kernel/mm.cc:197-199 | setting every traced bit keeps canonical form if and only if no neighbours differ by that bit alone |
| `MemoryMap.EnableLeavesNeighbours` | junction/kernel/mm.cc:197-199 | two pages of which an earlier trace covered one |
| `MemoryMap.BreakMovesExactly` | junction/kernel/mm.cc:462-513 | the test passes exactly when no area lies between break and new end; a break inside a mapped page never passes it upwards |
| `Modular.MaskIsRemainder` | junction/base/byte_channel.h:105-109 | masking with size minus one, bit by bit, is the remainder by a power of two |
| `Modular.WrappedDifference` | junction/base/byte_channel.h:99-101 | the difference of two counters modulo 2^64 is their true distance while that is below 2^64 |
| `IoVectors.GenericCopyv` | junction/base/io.cc:61-88 | the smaller of the two totals is copied, the gathered source bytes being scattered over the destination addresses in order, for any split, overlapping or empty buffers |
| `IoVectors.ScatterGather` | junction/base/io.cc:61-88 | with no address named twice, gathering the destination gives the copied bytes followed by what was there |
| `ByteChannel.ByteChannel.constructor` | junction/base/byte_channel.h:21-24 | an empty channel whose size is the least power of two that holds the request |
| `ByteChannel.ByteChannel.Read` | junction/base/byte_channel.h:98-117 | the first bytes of the contents reach the buffer and leave the channel, or stay on a peek; EAGAIN exactly when there is nothing to copy |
| `ByteChannel.ByteChannel.Write` | junction/base/byte_channel.h:119-138 | as many bytes as fit are appended to the contents, across the wrap of buffer and counters; EAGAIN exactly when none fit |
| `ByteChannel.ByteChannel.Readv` | junction/base/byte_channel.h:140-164 | the contents are scattered over the iovecs; EAGAIN only when the channel is empty |
| `ByteChannel.ByteChannel.Writev` | junction/base/byte_channel.h:166-190 | the gathered iovecs are appended as far as they fit; EAGAIN only when the channel is full |
| `ByteChannel.ByteChannel.Save` | junction/base/byte_channel.h:50-62 | the two segments together are the contents |
| `ByteChannel.ByteChannel.Load` | junction/base/byte_channel.h:64-72 | the contents are the two segments; with Save a round trip |
| `RingProtocol.StepKeeps` | junction/base/byte_channel.h:98-190 | every load, byte copy and store of either thread keeps the ring invariant |
| `RingProtocol.RingSafe` | junction/base/byte_channel.h:98-190 | in every interleaving the consumed bytes are a prefix of the published ones, the rest is in the ring in order and within its size, and a completed read returns the next bytes |
| `RingProtocol.CallAmounts` | junction/base/byte_channel.h:98-190 | a write takes as many bytes as there is room for, a read as many as are published up to its length; they give up exactly when that is nothing; a peek consumes nothing |
| `RingProtocol.StretchIndex` | junction/base/byte_channel.h:148-160 | the iovecs of the vectored calls name the ring positions in order, so the same steps cover them |
| `Pipe.DataOccupancy` | junction/fs/pipe.h:43-53 | a channel step of one end never unblocks that end nor blocks the other |
| `Pipe.StepKeeps` | junction/fs/pipe.h:43-124 | every lock-free data step and every part of a locked region keeps the wakeup and poll invariant |
| `Pipe.PipeSafe` | junction/fs/pipe.h:43-124 | in every run a sleeping end is blocked or about to be woken by a step that does wake it, both are never asleep, an open end has its hang-up flag exactly when the other is closed, with no step pending the poll flags say exactly "not empty" and "not full", and every call returns what it should |
| `Pipe.Outcomes` | junction/fs/pipe.h:43-124 | zero is read exactly when an end is closed and every published byte consumed, EPIPE, EAGAIN and EINTR exactly in their cases, and a call sleeps only if it may block, no signal came, both ends are open and there is nothing to do |
| `Pipe.SafeIffAttached` | junction/fs/pipe.h:71-123 | no run of a new pipe loses a wakeup if and only if both poll sources are attached |
| `Pipe.UnattachedReader` | junction/fs/pipe.h:118-121 | without the read poll source a run ends with the reader asleep before a non-empty channel and nothing pending |
| `Pipe.UnattachedWriter` | junction/fs/pipe.h:76-79 | without the write poll source a run ends with the writer asleep before a channel with room |
| `SignalQueues.SignalQueue.Enqueue` | junction/kernel/signal.cc:770-787 | a standard signal is taken unless one is queued, a real-time one while fewer than 1024 entries are; pending bits, order per number and bounds are kept |
| `SignalQueues.SignalQueue.Pop` | junction/kernel/signal.cc:735-768 | the oldest entry of the lowest unblocked number, or nothing exactly when all are blocked; exactly that entry leaves; the bit goes with the last entry; per number, signals leave in the order they were accepted |
| `SignalQueues.QueueBound` | junction/kernel/signal.cc:770-787 | the queue never holds more than 1024 plus 31 entries |
| `Notify.NoSignalLost` | junction/kernel/signal.cc:735-787 | in every run and for every queue, the accepted signals of one number are, in order, those handed to threads followed by those that wait |
| `Notify.TakesLowest` | junction/kernel/signal.cc:735-768 | a thread takes an unblocked signal of the lowest number, from the process only when its own queue has none |
| `Notify.SendProcessKeeps` | junction/kernel/proc.h:837-851 | queueing a process signal leaves every thread either notified or with a visit to come |
| `Notify.VisitKeeps` | junction/kernel/signal.h:275-278 | a visit discharges that obligation for the visited thread only |
| `Notify.MaskKeeps` | junction/kernel/signal.cc:888-937 | replacing, saving and restoring masks, and dropping the saved one at a delivery, never uncovers a pending signal without a notification |
| `Notify.MaskChanges` | junction/kernel/signal.cc:888-937 | a mask change blocks exactly what was asked for less SIGKILL and SIGSTOP, a restored mask is the saved one, also when a thread has found no signal |
| `Notify.NoSpuriousNotification` | junction/kernel/signal.h:275-278 | a thread is newly notified only for a signal it does not block that is queued or was when its sender set out |
| `Notify.JobControl` | junction/kernel/proc.h:820-851 | only a stop stops the process and only SIGCONT or SIGKILL lets it run; while stopped no thread takes from it; the senders of SIGSTOP and SIGKILL visit every thread, SIGKILL also when one is queued already |
| `Notify.ResetKeeps` | junction/kernel/signal.cc:847-853 | clearing the flag after finding nothing is safe although senders queue in between |
| `Notify.NoLostNotification` | junction/kernel/proc.h:820-851 | in every interleaving an unblocked pending signal implies that the thread is notified or a sender of it has yet to visit it, and SIGKILL and SIGSTOP are never blocked |
| `Delivery.Unwinds` | junction/kernel/signal.cc:793-825 | after a delivery, any run on top of it and its return, context, altstack and frames are as at delivery and the mask is the one a system call had saved, or else the one then |
| `Delivery.LastInFirstOut` | junction/kernel/signal.cc:810-822 | successive returns resume the interrupted contexts newest first, with their masks and altstacks |
| `Delivery.ApplyAllSignals` | junction/kernel/signal.cc:173-192 | the first frame interrupts the thread and holds its mask or the one a system call saved; each later one interrupts the entry of the handler before it; each handler runs with exactly what its action masks, itself unless it may nest, and never SIGKILL or SIGSTOP |
| `Delivery.DeliverBlocks` | junction/kernel/signal.cc:884-892 | which signals a delivery blocks, one by one, and that a self-disarming altstack is disabled |
| `Delivery.NotReentered` | junction/kernel/signal.cc:888-892 | whatever handlers nest on top, a handler that leaves the mask alone can be re-entered by its own signal if and only if its action allows nesting and does not mask it |
| `Delivery.EventsMean` | junction/kernel/signal.cc:915-937 | masks are set as asked, saved and restored whole |
| `SharedMutexes.SharedMutex.Lock` | junction/bindings/sync.cc:55-62 | owner if the lock is free, else last in the writers' queue; the counter is -1 exactly for a writer and else the number of readers |
| `SharedMutexes.SharedMutex.TryLock` | junction/bindings/sync.cc:64-69 | succeeds exactly when the lock is free |
| `SharedMutexes.SharedMutex.Unlock` | junction/bindings/sync.cc:79-93 | ownership passes to all waiting readers, else to the first waiting writer, else to nobody; exactly the new owners are woken |
| `SharedMutexes.SharedMutex.LockShared` | junction/bindings/sync.cc:95-103 | a reader joins unless a writer owns the lock; the shared count is the queue's length |
| `SharedMutexes.SharedMutex.TryLockShared` | junction/bindings/sync.cc:105-110 | succeeds exactly when no writer owns the lock |
| `SharedMutexes.SharedMutex.UnlockShared` | junction/bindings/sync.cc:122-132 | the last reader hands over to the first waiting writer |
| `SharedMutexes.SharedMutex.UpgradeLock` | junction/bindings/sync.cc:134-143 | the only reader becomes the writer at once, another one queues as a writer |
| `SharedMutexes.SharedMutex.DowngradeLock` | junction/bindings/sync.cc:145-154 | the writer and all waiting readers become readers |
| `SharedMutexes.MutualExclusion` | junction/bindings/sync.cc:43-154 | in every run a thread inside exclusively is alone, and a thread waits only while another one is inside or about to be |
| `SharedMutexes.ServedNext` | junction/bindings/sync.cc:79-154 | a leaving writer lets in all waiting readers and no writer, without readers the first waiting writer; the last reader lets in the first writer; all others go on waiting |
| `SharedMutexes.WritersInOrder` | junction/bindings/sync.cc:55-154 | in every run, as long as a writer waits, nobody who did not wait before it gets to write, except by an upgrade |
| `SharedMutexes.LaterWriterWaits` | junction/bindings/sync.cc:55-154 | in particular a thread that comes after a waiting writer does not write before it, unless it upgrades |
| `InitialStack.VectorBytes` | junction/kernel/exec.cc:41-45 | the bytes of all strings with their terminators |
| `InitialStack.SetupStack` | junction/kernel/exec.cc:91-147 | count, pointers, auxiliary vector, random bytes and strings lie at their places without overlap, no other byte changes, the stack pointer is 16-byte aligned exactly when the top was, and a program that reads the stack finds its arguments and the auxiliary vector as below |
| `InitialStack.RoundTrip` | junction/kernel/exec.cc:91-147 | reading the stack as the psABI lays it out returns the argument and environment lists if and only if no string has a NUL inside |
| `InitialStack.AuxMeans` | junction/kernel/exec.cc:57-89 | each of the nineteen keys occurs once with its value: header address, entry size, count, entry point, base of the interpreter or else of the program, page size, capabilities, and the constants |
| `InitialStack.AuxPointers` | junction/kernel/exec.cc:57-89 | AT_EXECFN leads to the first string and AT_RANDOM to the sixteen random bytes |
| `ElfImage.CheckPhdrs` | junction/kernel/elf.cc:65-75 | EINVAL exactly when some header is out of order |
| `ElfImage.CheckedCongruent` | junction/kernel/elf.cc:65-75 | the check implies agreement modulo the page size for alignments of a page or more |
| `ElfImage.CountTotalLength` | junction/kernel/elf.cc:80-87 | the highest end of a loadable segment |
| `ElfImage.AddressSpace.LoadOneSegment` | junction/kernel/elf.cc:101-147 | succeeds exactly when the host refuses nothing; then the pages of the segment hold the mapped file bytes, then zeros, with the segment's rights also after the temporary write-enable, and nothing else changes |
| `ElfImage.AddressSpace.LoadSegments` | junction/kernel/elf.cc:150-170 | succeeds exactly when the host refuses nothing; then for page-disjoint segments every one is in place, as the gABI asks where address and offset agree; a relocatable image stays inside its reservation and nothing outside changes |
| `ElfImage.LoadedImage` | junction/kernel/elf.cc:110-144 | file bytes below filesz, zeros up to memsz, and the segment's protection |
| `ElfImage.RightIffCongruent` | junction/kernel/elf.cc:110-119 | for every file the image is right if and only if address and offset agree modulo the page size or the file part is empty |
| `ElfImage.AcceptedMisload` | junction/kernel/elf.cc:65-75 | a header that passes the check, a file, and the byte that is loaded wrongly |
| `Identifiers.Bitmap.FindNext` | junction/base/bitmap.h:116-138 | the word-wise search finds the first set, or clear, bit from a position on, for any size |
| `Identifiers.UIDGenerator.Generate` | junction/base/uid.h:17-24 | a number not in use, the next one after the last given out and cyclic, and the next search starts behind it; failure exactly when all are in use |
| `Identifiers.UIDGenerator.Release` | junction/base/uid.h:27 | exactly that number becomes free |
| `Pids.PidTable.DecRefCount` | junction/kernel/proc.cc:58-64 | one reference less, and the number is free exactly when none is left |
| `Pids.PidTable.AllocPid` | junction/kernel/proc.cc:71-80 | a number nobody uses, with one reference each for it, its group and its session; ENOSPC exactly when all are in use; bits equal counts if and only if group and session are alive |
| `Pids.PidTable.ReleasePid` | junction/kernel/proc.cc:90-96 | one reference less for each, even when the three coincide |
| `Pids.PidTable.CreateInit` | junction/kernel/proc.cc:82-88 | a fresh number that is process, group and session at once |
| `Pids.PidTable.CreateProcess` | junction/kernel/proc.cc:379-386 | undisturbed, counts stay equal to uses as process, thread, group and session; the number was unused |
| `Pids.PidTable.BeginCreate` | junction/kernel/proc.cc:381-382 | the locked half, with numbers read earlier: counts equal uses, and the table is consistent if and only if those numbers are still alive |
| `Pids.PidTable.FinishCreate` | junction/kernel/proc.cc:384-386 | the unlocked half, with any other calls in between: counts equal uses if and only if the parent still has the two numbers that were counted |
| `Pids.JoinWhileCreating` | junction/kernel/proc.cc:379-389 | a setpgid by the parent between the halves leaves the table inconsistent |
| `Pids.PidTable.CreateThread` | junction/kernel/proc.cc:405-413 | the same for a thread other than the main thread |
| `Pids.PidTable.ExitThread` | junction/kernel/proc.cc:213-220 | a thread's exit gives up exactly its number |
| `Pids.PidTable.ReapProcess` | junction/kernel/proc.cc:303-307 | a process's end gives up its three references and keeps counts equal to uses |
| `Pids.PidTable.BecomeSessionLeader` | junction/kernel/proc.cc:251-260 | EPERM exactly for a group leader, else the references move and stay equal to uses |
| `Pids.PidTable.JoinProcessGroup` | junction/kernel/proc.cc:262-270 | counts equal uses, and bits equal counts if and only if the group joined has a reference besides the one given up |
| `Pids.JoinDeadGroup` | junction/kernel/proc.cc:262-270 | joining a number that is no group leaves the table inconsistent |
| `Futex.FutexTable.PushBack` | junction/kernel/futex.cc:32-37 | the sixteen buckets stay the arrival-ordered list split by hash |
| `Futex.FutexTable.Wake` | junction/kernel/futex.cc:52-71 | waking in the key's bucket is waking in the one list of all waiters; only waiters for the key with a bit of the mask are woken, nobody is lost, and unless the limit was reached none of them is left; the result is their number |
| `Futex.FutexTable.Erase` | junction/kernel/futex.cc:42-43 | exactly that waiter leaves |
| `Futex.WokenIsPrefix` | junction/kernel/futex.cc:57-69 | those woken are the first ones to arrive for the key whose bitset meets the mask |
| `Futex.LeftKeeps` | junction/kernel/futex.cc:57-69 | everybody else keeps their place |
| `Futex.OthersStay` | junction/kernel/futex.cc:57-69 | a waiter for another key or with a disjoint bitset is listed after any wake |
| `Futex.Conservation` | junction/kernel/futex.cc:20-71 | in every interleaving with timeouts and signals, the sum of Wake's results is the number of waits that returned success or are about to |
| `Futex.WakesAskedFor` | junction/kernel/futex.cc:52-71 | the right number is woken if and only if the unsigned count is below 2^31 or at most one waiter matches |
| `Futex.WakesTooFew` | junction/kernel/futex.cc:52-71 | the largest count wakes one of two waiters |
| `RecordLocks.AdvisoryLockContext.ClearRange` | junction/fs/advisory_lock.cc:55-85 | truncation, erasure and appended fragments keep the table in order; the result tells whether a lock was touched |
| `RecordLocks.ClearedCovers` | junction/fs/advisory_lock.cc:55-85 | exactly that process's bytes in the range are cleared, all others keep their lock and its kind |
| `RecordLocks.AdvisoryLockContext.DoSet` | junction/fs/advisory_lock.cc:117-140 | EINVAL or EAGAIN exactly by range and by a byte that another process has locked against it; on success the process's bytes in range are locked as asked, and no byte one process has write-locked is locked by another |
| `RecordLocks.AdvisoryLockContext.DoGet` | junction/fs/advisory_lock.cc:96-115 | the first conflicting lock, or none exactly when no byte in range is locked against it |
| `RecordLocks.AdvisoryLockContext.DropLocksForPid` | junction/fs/advisory_lock.cc:142-151 | that process's locks go and no others |
| `RecordLocks.AdvisoryLockContext.AnyConflicts` | junction/fs/advisory_lock.h:62-66 | true exactly when a lock of another process overlaps and one of the two is a write lock |
| `RecordLocks.RangesDisjoint` | junction/fs/advisory_lock.h:34-46 | the ranges of one process never overlap |
| `RecordLocks.ConflictMeans` | junction/fs/advisory_lock.h:34-66 | locks conflict if and only if some byte in range is locked by another process, for writing or with a write lock wanted; any number may read |
| `RecordLocks.RangeMeans` | junction/fs/advisory_lock.cc:29-53 | for every whence, the range of a flock, and exactly when it is refused |
| `RecordLocks.AnswerExact` | junction/fs/advisory_lock.cc:109-113 | the answer names the conflicting range, with a positive length unless the range is the whole file |
| `RecordLocks.WholeFileAnswer` | junction/fs/advisory_lock.cc:109-113 | a lock on the whole file is answered with a negative length |
| `Paths.SplitText` | junction/base/string.h:14-26 | the tokens joined give the text back, with or without a limit |
| `Paths.SplitJoin` | junction/base/string.h:14-26 | splitting inverts joining on tokens without the separator |
| `Paths.SplitPath` | junction/fs/core.cc:95-104 | exactly the trailing empty and dot components are dropped, and a directory is asked for exactly when there were some |
| `Paths.Walk` | junction/fs/core.cc:40-90 | walking ends by link depth and components left, whatever links there are; the result is never stale; from inside the root's subtree it is never outside, and from where climbing meets the root or the topmost entry no null parent is read |
| `Paths.WalkPath` | junction/fs/core.cc:40-90 | the loop with its recursion on links computes that walk, from any directory |
| `Paths.WalkIsResolution` | junction/fs/core.cc:40-90 | the walk gives the entry or the error that the rules of path resolution derive with fewer than the allowed nested links, and ELOOP if and only if they derive nothing so |
| `Paths.LinkIsItsTarget` | junction/fs/core.cc:64-76 | following a link is putting its target in place of its name, from the directory that holds it or from the root; only the nesting differs |
| `Paths.LinkToSibling` | junction/fs/core.cc:64-76 | a link to the name of a sibling leads to the sibling |
| `Paths.LinkToPrinted` | junction/fs/core.cc:64-76 | a link to the printed path of an entry leads to that entry |
| `Paths.LookupDirEntry` | junction/fs/core.cc:299-306 | the entry of a path from the root or any current directory; EINVAL for a NUL |
| `Paths.LookupIsResolution` | junction/fs/core.cc:299-306 | a lookup is that resolution of the trimmed path with fewer than eight nested links, and EINVAL for a NUL |
| `Paths.ContainedIffCwdInside` | junction/fs/core.cc:106-110 | every lookup stays in the root's subtree if and only if the current directory is in it |
| `Paths.NullParentIffUnanchored` | junction/fs/core.cc:52-56 | no lookup reads a null parent if and only if climbing from the current directory meets the root or the topmost entry |
| `Paths.CwdOutsideRoot` | junction/run.cc:35-38 | root a, current directory b: a dot resolves outside the root and printing the current directory does not end |
| `Paths.UnlinkedCwd` | junction/fs/core.cc:52-56 | a lookup of the parent from an unlinked current directory |
| `Paths.LookupEntry` | junction/fs/core.cc:147-174 | the directory and last name of a path, from any directory; a missing parent at the end is ESTALE |
| `Paths.LookupsAgree` | junction/fs/core.cc:147-306 | with nothing stale and for every path, that place holds what the whole lookup finds, the last link chased if asked or if the path ends in a slash; only a last dot-dot without a parent separates the two |
| `Paths.GetFullPath` | junction/fs/core.cc:337-360 | wherever the climb ends: the names from below the root down to the entry, ESTALE at an unlinked ancestor, or the stored name of an entry in no map |
| `Paths.RoundTrip` | junction/fs/core.cc:337-360 | resolving the printed path of a listed entry with ordinary names returns that entry, from any current directory |
| `Paths.TopRoundTrip` | junction/fs/core.cc:339-344 | the topmost entry prints as a dot and resolves to itself if and only if it is the current directory, under any root |
| `Paths.PrintingEnds` | junction/fs/core.cc:346-355 | the loop ends if and only if the entry is in the root's subtree or not in the topmost entry's; it meets the root exactly in the first case |
| `Paths.PrintsStale` | junction/fs/core.cc:348-352 | printing a listed entry fails if and only if the climb meets an unlinked entry at or below the root |

## Left out

- FindFreeRange: the hint branch (junction/base/interval_set.h:123-146) is not modelled; for an interval above the limit the statement needs lengths that fit above it, which holds for any 47-bit address space.
- MMap: the hint, the global pool for low addresses and MAP_POPULATE (junction/kernel/mm.cc:520-562 and 606-610) are not modelled; a range that wraps is assumed to be refused by the host.
- EnableTracing: host calls succeed in the method; Tracing.EnableFailingExact covers failure. The memfs tracer and the collection of rseq pointers are not modelled.
- EndTracing: host calls succeed in the method; Tracing.EndFailingExact covers failure.
- TracerModifyProt: host calls succeed in the function; Tracing.ProtectFailingExact covers failure.
- EnableRseq: the host call succeeds.
- Interruption of mmap, munmap, mprotect by a signal (EINTR), and the global region bookkeeping of munmap outside the map's range.
- RingProtocol: weak memory; acquire and release are taken as sequentially consistent.
- Pipe: the multi-writer and message instances, and what happens after Detach is called with an end still open.
- Notify: rt_sigtimedwait, which pops with another mask, thread creation during a send, and the delivery of the interrupt itself.
- Delivery: the placement of frames on the user or alternate stack, one-shot actions, restart of system calls and xsave state.
- LockShared: a caller that already owns the lock is excluded, as the shared mutex requirements of ISO C++ do; so are Lock and TryLockShared.
- SharedMutex: the interruptible operations; an interrupted shared wait leaves the shared count raised.
- SetupStack: stacks that do not fit; the source does not check, and the model requires room.
- ElfImage: reading the file, the interpreter and address overflow; pages wholly past the end of the file read as zero instead of faulting.
- Pids: taking up PIDs again on snapshot restore.
- Futex: the value check before queueing is the caller's entry into the model; requeue and PI operations do not exist in the source.
- DoSet: the waiting form, whose waiter is not woken by unlocks.
- Paths: changes of the tree during a walk, mounts and permissions; deletion appears only as stale and unlinked entries.
- Time, scheduling, epoll, sockets, the control server, snapshots beyond the ring, and the assembly entry points.
