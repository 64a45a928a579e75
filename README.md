# Page replacement and disk-head scheduling, modelled in Dafny

This project models the two decision engines of a small operating-system
simulator written in C++ (`main.cpp`):

- **The page-replacement engine.** It works on one process's vector of
  resident pages.
  - `accessPage` either touches the page that is already resident or
    raises a fault.
  - `pageFaultHandler` calls `replacePage` when the vector is at capacity,
    then appends the new page and counts the fault.
  - `replacePage` erases one victim chosen by one of six policy names:
    `LIFO`, `MRU`, `LRU-X`, `LFU`, `OPT-lookahead-X` and `WS`.
  - Around these sit:
    - `runSimulation`, which replays the access trace;
    - `processPage`, a hit/miss step that does no working-set bookkeeping;
    - `processWorkset`, which drops pages accessed after the time bound `X`;
    - `processDisk`, which inserts into the frame table.
- **The disk-head schedulers.** `processFIFO` and `processSSTF` (which sit in
  a commented-out block of the file) drain the pending-operation queue. For
  each operation they charge the seek `|head - address|`, hand the operation
  to the service step and move the head.

The model takes the program's own form.

- **`Process`** is a class whose methods update its fields in place:
  - `ReplacePage`, `PageFaultHandler` and `AccessPage` correspond to
    `replacePage`, `pageFaultHandler` and `accessPage`;
  - `DropAccessedAfter` is the per-process body of `processWorkset`.
- **`Simulator`** holds the program's globals: the process table, the frame
  table, the trace and `X`. Its methods are `RunSimulation`, `ProcessPage`,
  `ProcessWorkset` and `ProcessDisk`.
- **`DiskScheduler`** holds the disk queue and the head, with the methods
  `ProcessFIFO` and `ProcessSSTF`.
- **Specification functions.** Every method is proved against a function
  over immutable snapshots:
  - `FaultStep` and `AccessStep` specify the process operations;
  - `Replay` specifies `runSimulation`;
  - `Serviced` and `SstfOrder` specify the schedulers.
- **Lemmas** prove about those functions what the code promises.
- **The victim searches** are pure functions. They use generic models of
  `std::min_element`, `std::max_element` and `vector::erase` that follow the
  scan loop libstdc++ and libc++ implement. The C++ standard requires a
  strict weak order of these comparators; for one that is not (WS's), the
  model yields the position libstdc++ and libc++ return.

What the code does, and the model with it, sometimes differs from what the
policy names promise. In each such case the model follows the code.

- **"MRU"** calls `max_element` with a `>` comparator. It therefore evicts
  the first page with the *smallest* access time, i.e. the least recently
  used page (`Replacement.MruVictim`).
- **"OPT-lookahead-X"** also calls `max_element` with `>`. It evicts the
  page whose next use is *soonest*, not furthest away
  (`Replacement.OptVictim`).
  - Neither `accessPage` nor `processPage` ever passes a lookahead, so in the
    simulation OPT evicts nothing and a process outgrows its capacity
    (`Processes.OptAccessOutgrowsCapacity`).
  - Because of this, OPT is not optimal, and no optimality claim is made.
- **"WS"** uses a `min_element` comparator that never looks at its second
  argument.
  - It evicts the *last* stale page at position 1 or later, and otherwise the
    first page.
  - It therefore always evicts, rather than "the least recently used stale
    page, or none" (`Replacement.WsVictim`).
- **"LRU-X"** ranks pages by `kthAccessTime`. This field is set when the page
  is loaded and never updated, so the ranking is by insertion time. The
  history parameter `k` is passed along but used by no policy.
- **The disk schedulers** seek to `diskAddress`, not to `track`.
- **Capacity** is compared as `pages.size() >= static_cast<size_t>(size)`. A
  negative size therefore wraps to a huge capacity (`Processes.SizeT`).
- **The working-set bounds** `minWorkset` and `maxWorkset` are refreshed only
  on a hit, never after a fault. So they need not enclose the number of
  resident pages: the first access of a loaded process misses and leaves one
  page with the bounds still at SIZE_MAX and 0
  (`Processes.AccessMissKeepsWorksetBounds`,
  `Processes.FirstFaultOutsideWorksetBounds`).
- **The process table** is indexed by a trace entry's process id. The model
  requires that id to be a valid position in the table.

The service step `processDiskOperation` waits on the semaphore `mutex_sub`,
prints, and posts `mutex_main`. `mutex_sub` starts at 0 and nothing posts
it, so as written the first service call blocks for ever and neither
scheduler gets past its first operation. Here the step is abstract and
always returns: each scheduler returns, as the out-parameter `serviced`,
the operations it handed to that step, in order and with their seek times.

## Model

| member | source | states |
|---|---|---|
| Algorithms.MinElementLeast | main.cpp:211-213 | with a comparator `key(a) < key(b)`, min_element returns the first position of least key |
| Algorithms.MinElementGreatest | main.cpp:206-210 | with a comparator `key(a) > key(b)`, min_element returns the first position of greatest key |
| Algorithms.MaxElementInvertedLeast | main.cpp:203-205 | with a comparator `key(a) > key(b)`, max_element returns the first position of LEAST key |
| Algorithms.MinElementUnary | main.cpp:230-233 | with a comparator that reads only its first argument, min_element returns the last position from 1 on that satisfies it, or 0 |
| Algorithms.Erase | main.cpp:236-238 | erasing position i keeps every other element in its order and shortens the vector by one |
| Algorithms.EraseMultiset | main.cpp:236-238 | erasing removes exactly one occurrence of the erased element |
| Replacement.BuildFutureAccessMap | main.cpp:215-220 | the loop builds exactly the lookahead map `FutureAccessMap` |
| Replacement.NextUseIsEarliest | main.cpp:215-224 | the map's keys are exactly the pages the lookahead mentions; each maps to the earliest time it is accessed there, and an absent page ranks as INT_MAX |
| Replacement.Victim | main.cpp:196-234 | there is no victim exactly when the vector is empty, the policy name is unknown, or OPT has no lookahead; otherwise the victim is a valid position |
| Replacement.EvictRemovesAtMostOne | main.cpp:196-238 | replacePage changes nothing when there is no victim, and otherwise erases exactly the victim, keeping the others in order |
| Replacement.LifoVictim | main.cpp:201-202 | LIFO evicts the last page |
| Replacement.MruVictim | main.cpp:203-205 | "MRU" evicts the first page with the smallest accessTime |
| Replacement.LruVictim | main.cpp:206-210 | "LRU-X" evicts the first page maximising currentTime - kthAccessTime |
| Replacement.LfuVictim | main.cpp:211-213 | LFU evicts the first page with the smallest frequency |
| Replacement.OptVictim | main.cpp:214-226 | OPT with a lookahead evicts the first page whose next use is soonest |
| Replacement.WsVictim | main.cpp:227-233 | WS evicts the last stale page (more than 10 time units since its last access) at position 1 or later, or else position 0, so it always evicts one page |
| Processes.SizeT | main.cpp:120 | the size_t cast keeps non-negative sizes and wraps negative ones above SIZE_MAX - 2^31 |
| Processes.FirstIndexOf | main.cpp:130-131 | find_if returns the first position holding the page number, and the end position exactly when the page is not resident |
| Processes.FaultStepEffect | main.cpp:119-127 | pageFaultHandler counts exactly one fault and appends the new page (frameID -1, frequency 1, both times now) last; before it stand the old pages minus at most one (counted as a multiset); below capacity they are the old pages unchanged; no other field changes |
| Processes.FaultStepKeepsCapacity | main.cpp:119-127 | with a capacity of at least one and a policy other than OPT, a fault keeps the vector within capacity |
| Processes.AccessCountsMisses | main.cpp:129-145 | accessPage counts a fault exactly when the page is not resident |
| Processes.AccessHit | main.cpp:135-144 | on a hit, only the first matching page changes (accessTime becomes now, frequency grows by one); no fault is counted; afterwards minWorkset <= size <= maxWorkset, and the bounds only widen |
| Processes.AccessMiss | main.cpp:133-134 | on a miss, accessPage is exactly pageFaultHandler without a lookahead |
| Processes.AccessKeepsCapacity | main.cpp:129-145 | with a capacity of at least one and a policy other than OPT, accessPage keeps the vector within capacity |
| Processes.OptAccessOutgrowsCapacity | main.cpp:129-134 | under OPT, a miss at capacity evicts nothing and the vector grows past capacity |
| Processes.AccessMissKeepsWorksetBounds | main.cpp:133-134 | a miss leaves minWorkset and maxWorkset unchanged; only a hit refreshes them |
| Processes.FirstFaultOutsideWorksetBounds | main.cpp:129-145 | from the loaded state, a first access leaves one resident page while maxWorkset is still 0 and minWorkset still SIZE_MAX |
| Processes.ProcessPageMatchesAccess | main.cpp:171-185 | processPage does to pages and fault count what accessPage does, and leaves the working-set bounds unchanged |
| Processes.Process.constructor | main.cpp:102 | a loaded process has no pages, no faults, is not finished, and has minWorkset SIZE_MAX and maxWorkset 0 |
| Processes.Process.FindPage | main.cpp:130-131 | the scan returns the first position of the page number, or the end |
| Processes.Process.ReplacePage | main.cpp:196-239 | the page vector becomes `Evict` of the old one, and nothing else changes |
| Processes.Process.PageFaultHandler | main.cpp:119-127 | the process's new state is `FaultStep` of the old one |
| Processes.Process.AccessPage | main.cpp:129-145 | the process's new state is `AccessStep` of the old one |
| Processes.Process.DropAccessedAfter | main.cpp:190-192 | remove_if plus erase leaves `AccessedBy(old pages, x)` |
| Processes.AccessedByMembers | main.cpp:190-192 | a page is kept exactly when it was resident and last accessed no later than x |
| Processes.AccessedBySubmultiset | main.cpp:190-192 | the kept pages are a sub-multiset of the old ones |
| Processes.AccessedByKeepsOld | main.cpp:190-192 | when no page was accessed after x, the vector is unchanged |
| Processes.AccessedByIdempotent | main.cpp:190-192 | filtering a second time with the same bound changes nothing |
| Simulation.ReplayKeepsCapacity | main.cpp:147-155 | under every policy but OPT, replaying a trace keeps every process within its capacity |
| Simulation.ReplayLeavesFinished | main.cpp:149-153 | a replay changes no process's id, size or finished flag, and leaves finished processes as they were |
| Simulation.ReplayLeavesUnnamed | main.cpp:147-155 | a process that no trace entry names is left unchanged |
| Simulation.ReplayCountsMisses | main.cpp:147-155 | a process's fault count grows by exactly the number of its trace entries that miss while it is unfinished |
| Simulation.LifoScenarioFill | main.cpp:129-145 | on two frames under LIFO, the accesses 1, 2, 1 give two faults, pages [1, 2], and working-set bounds 2 and 2 |
| Simulation.LifoScenario | main.cpp:119-145 | continuing with 3 and 1, the fault on page 3 evicts page 2 (the last inserted): three faults, with pages 1 and 3 resident |
| Simulation.WorksetIdempotent | main.cpp:187-194 | processWorkset twice with the same bound equals processWorkset once |
| Simulation.WithFrameHolds | main.cpp:157-169 | afterwards processDisk holds a frame for the entry; it keeps the old frames as a prefix, adds at most one, and keeps a well-formed table (ids equal positions, no (page, process) twice) well formed |
| Simulation.WithFrameIdempotent | main.cpp:157-169 | processDisk twice with the same entry equals processDisk once |
| Simulation.FindFrame | main.cpp:160-161 | find_if returns the first frame matching both page and process, or the end |
| Simulation.Simulator.constructor | main.cpp:61-71 | the context holds the loaded processes and trace, and an empty frame table |
| Simulation.Simulator.RunSimulation | main.cpp:147-155 | the process table's new state is `Replay` of the old one over the whole trace |
| Simulation.Simulator.ProcessPage | main.cpp:171-185 | only the entry's process changes, to `ProcessPageStep` of its old state |
| Simulation.Simulator.ProcessWorkset | main.cpp:187-194 | every process keeps exactly `AccessedBy(pages, X)` |
| Simulation.Simulator.ProcessDisk | main.cpp:157-169 | the frame table becomes `WithFrame` of the old table and the entry |
| DiskScheduling.ServicedAt | main.cpp:460-468 | the k-th serviced operation is the k-th queued one; only its seek time is changed, to the distance from the previous operation's address (the starting head for the first) |
| DiskScheduling.TotalSeekIsPathLength | main.cpp:462-463 | the recorded seek times sum to the distance the head travels |
| DiskScheduling.TotalSeekCoversDisplacement | main.cpp:462-466 | the total seek is at least the distance between the head's start and end positions |
| DiskScheduling.SstfOrderIsPermutation | main.cpp:479-490 | SSTF services every queued operation exactly once |
| DiskScheduling.SstfServicesNearestFirst | main.cpp:480-482 | SSTF first services the first pending operation at least distance from the head, then continues from that operation's address |
| DiskScheduling.FifoScenario | main.cpp:457-469 | with the head at 50 and addresses 90, 40, 60, FIFO seeks 110 in total |
| DiskScheduling.SstfScenarioOrder | main.cpp:480-482 | on the same queue SSTF breaks the 40/60 tie in favour of the earlier-queued 40, then services 60, then 90 |
| DiskScheduling.SstfScenario | main.cpp:476-491 | SSTF seeks 60 in total on the same queue |
| DiskScheduling.DiskScheduler.constructor | main.cpp:70-71 | the scheduler holds the given queue and head position |
| DiskScheduling.DiskScheduler.ProcessFIFO | main.cpp:457-472 | the queue ends empty; operations are serviced in queue order with their seeks; the head ends at the last address; count equals the queue length; total equals the sum of seeks; average is total / count (0 when empty) |
| DiskScheduling.DiskScheduler.ProcessSSTF | main.cpp:476-494 | as ProcessFIFO, with operations serviced in `SstfOrder`: a permutation of the queue that always takes the first nearest pending operation |

## Left out

- `readFile` and `main` (file input, argument handling, console output) are not part of this model. Loading appears only as the `Process` and `Simulator` constructors.
- `simulate` draws page numbers from `rand()` and prints its results, so it has nothing deterministic to state.
- Semaphores are not modelled: `initSemaphores`, `destroySemaphores`, and the `sem_wait`/`sem_post` and console output in `processDiskOperation`. The service step is abstract, and its calls are recorded in `serviced`.
- The blocking of `processDiskOperation`: it waits on `mutex_sub`, which starts at 0 and is never posted, so the source's schedulers would block on their first operation; the model's service step returns, so `ProcessFIFO` and `ProcessSSTF` describe the queue draining the code is written to perform.
- `diskDriver` and `diskDriverThread` are endless worker loops built on semaphores and sleeping; their point is concurrency.
- The thread-spawning `simulate`, `initProcesses` and `initDiskDriver` in the first commented-out block are not modelled.
- `scheduleDiskOperations` is not modelled. It is wrapped in a semaphore, and its SCAN branch clears the queue including operations it never serviced.
- `processSCAN` is not modelled. After the descending sort, its backward search lands at the end of the queue. So it does not perform a sweep, and it uses an iterator after `erase`; no coherent behaviour remains to state.
- `Process::historyPages` and the global `totalPages` are never read or written by the core, so they are not modelled. The same holds for `g_nPageSize`.
- OPT's classical optimality (given the whole remaining trace, no more faults than any other policy) is not stated: the code's OPT evicts the soonest-used page and never receives a lookahead during a simulation.
- Replacement.LruVictim: the differences `currentTime - kthAccessTime` are mathematical integers; the 32-bit overflow of the C++ `int` arithmetic is not modelled.
- Replacement.WsVictim: `currentTime - accessTime` is compared without 32-bit overflow.
- Processes.Process.AccessPage: `faultCount` and `frequency` grow without the 32-bit wrap-around of `int`.
- DiskScheduling.DiskScheduler.ProcessFIFO: `totalSeekTime` and the seeks are unbounded integers; a total past INT_MAX, which would overflow in C++, is not modelled.
- DiskScheduling.DiskScheduler.ProcessSSTF: as ProcessFIFO, `totalSeekTime` does not overflow in the model.
