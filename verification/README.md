# zsim memory hierarchy: models and proofs

Dafny 4.11 models of the parts of zsim's simulated memory hierarchy that are state machines or
algorithms in their own right, with proofs of what they promise over every run. Each module models
one component:

- `Coherence`: the MESI controllers, for one line in a tree of inclusive caches of any depth. A cache
  waits for its parent with its bottom lock free, so invalidations overtake requests; `Hierarchy` has
  one method for each critical section, and `Run` takes them in any order.
- `Barrier`: the join/leave barrier with limited parallelism, with the run list and the thread list in
  arrays that the compaction and the shuffle rearrange in place.
- `ZArray`: the skew-associative array with its breadth-first walk and chain of relocations.
- `DdrController`, `DdrTiming`, `FrFcfs`, `ActWindow`, `ClockDomains`: the DDR controller. The first holds
  the queues and the scheduling event, the second the command timing with a log of every command, the
  third the order of a bank queue, the fourth the activation window, the last the clock conversions on
  64-bit words. The timing rules are a simplification of the command rules of section 4 of JEDEC JESD79-3.
- `RwMutex`: the read-write mutex with atomic downgrade, as a state machine over its atomic steps.
- `Lookahead`: the greedy partitioning of cache space.
- `FilterCache`: the lock-free filter in front of an L1.
- `IdealLru` and `IntrusiveList`: the fully associative LRU array, and the list that it and the DDR
  queues use.
- `DataBus`: the slot search on a detailed memory channel.
- `Counting`: sizes of finite sets and sequences.

`dafny verify dfyconfig.toml` checks everything.

Where the code differs from its comments or its evident purpose the models follow the code:

- Appending a thread to the barrier's run list does not set its `lastIdx`. If a thread leaves while it
  waits and rejoins at once, the assertion on `runList[lastIdx]` is reached exactly if the cursor has
  passed `lastIdx`, and then holds exactly if the thread has synced in this phase
  (`Barrier.Barrier.RejoinAtOnce`); `Barrier.LeaveUnwoken` is a run after which it would not.
- The activation window is sorted only under the condition of `ActWindow.AddedSorted`; the four-activation
  rule holds regardless.
- `tRRD` is applied between activations of one bank only. Those of a rank keep it over every run exactly if
  tRRD is 0 or no two banks share a rank (`DdrTiming.Channel.RanksKeepRrdIf`,
  `DdrTiming.ActivateTogether`).
- An invalidation from a thread of another process compares against the wrong mask, as a comment in the
  source suspects; `FilterCache.FilterCache.Invalidate` says exactly when that matters, and
  `FilterCache.ForeignInvalidation` is a run in which it does.
- A request that goes through the overflow queue counts as arriving when it leaves it, and requests that
  come later may be queued before it (`DdrController.DDRMemory.Enqueue`, `DdrController.LaterGoesFirst`);
  FR-FCFS order is the order of queueing.
- A round trip from memory to system cycles and back loses the cycle exactly when the product overflows 64
  bits (`ClockDomains.RoundTrip`).
- A cleared filter entry looks like one for line address 0 (`FilterCache.ZeroAlwaysHits`), and so does an
  unused line of the ideal LRU array: it is true LRU exactly as long as address 0 is not used while other
  lines remain unused (`IdealLru.IdealLruArray.Access`, `IdealLru.IdealLruArray.ForgetZero`).
- The partitioner takes one minimum, not one for each partition, off the buckets that it hands out, so the
  total is `partitions * minAlloc + buckets - minAlloc`; that subtraction wraps, and the result is then never
  feasible, exactly if the minimum exceeds the buckets (`Lookahead.ComputeBestPartitioning`).
- Utilities are rounded to doubles, which cannot cost the optimum as long as miss counts are at most 2^53,
  and can from 2^53 + 1 on (`Lookahead.RoundingHidesTheBest`).
- When an overflowed request is admitted during a tick, the next cycle is lowered to the bus-free cycle
  even if the request itself is not ready by then (`DdrController.DDRMemory.AdmitOverflowed`).

## Model

| member | source | states |
|---|---|---|
| `Coherence.SingleWriter` | zsim/src/coherence_ctrls.cpp:213-332 | In a coherent tree of caches, if a cache holds the line in E or M then every cache that is neither above nor below it is invalid, at any depth and fan-out |
| `Coherence.Inclusion` | zsim/src/coherence_ctrls.cpp:213-332 | A valid cache has every cache above it valid |
| `Coherence.DirectoryIsExact` | zsim/src/coherence_ctrls.cpp:213-332 | The sharer set is exactly the children not in I, `numSharers` is its size, and a child in E or M is the only sharer under a parent in E or M |
| `Coherence.ExclusiveAbove` | zsim/src/coherence_ctrls.cpp:213-332 | A cache in E or M has all its ancestors in E or M, each with the way down to it as its only sharer |
| `Coherence.NothingToLower` | zsim/src/coherence_ctrls.cpp:213-247 | Below a cache that an INV or INVX does not concern, nothing at all would be changed by it, so not telling non-sharers is right |
| `Coherence.LoweredRequest` | zsim/src/coherence_ctrls.h:247-274 | A pending GETX, PUTS or PUTX overtaken by an INV or INVX is still one of the races that `CheckForMESIRace` handles |
| `Coherence.SentKeeps` | zsim/src/coherence_ctrls.cpp:213-247 | Sending invalidations or downgrades below one cache keeps all the rest coherent, also while a child is half-way through an upgrade |
| `Coherence.SentDirt` | zsim/src/coherence_ctrls.cpp:162-186 | If a line was dirty somewhere, then after an INV or INVX it still is, or the invalidation has reported a writeback |
| `Coherence.PutKeeps` | zsim/src/coherence_ctrls.cpp:266-280 | A put by a child without sharers keeps coherence |
| `Coherence.ShareKeeps` | zsim/src/coherence_ctrls.cpp:288-303 | Granting S to a further child keeps coherence |
| `Coherence.GrantKeeps` | zsim/src/coherence_ctrls.cpp:281-326 | Making a child the only, exclusive sharer keeps coherence, also from the middle of an upgrade |
| `Coherence.TakenOutKeeps` | zsim/src/coherence_ctrls.cpp:308-313 | Taking an upgrading child out of the sharers breaks coherence only at that child's edge |
| `Coherence.AloneAtTheRoot` | zsim/src/coherence_ctrls.cpp:250-259 | When the last-level cache has no sharers left, every other cache is invalid, so a clean put to memory cannot lose dirty data |
| `Coherence.Hierarchy.SendInvalidates` | zsim/src/coherence_ctrls.cpp:213-247 | The recursion over the sharers changes exactly the lines below them, each as one INV or INVX would, and reports a writeback if and only if one of them was dirty; the source's assertions on the counts hold |
| `Coherence.Hierarchy.Invalidate` | zsim/src/coherence_ctrls.h:397-403 | An INV leaves the whole subtree in I with no sharers, an INVX takes E and M to S along the exclusive path and changes nothing else; the writeback flag is exact |
| `Coherence.Hierarchy.CheckForMESIRace` | zsim/src/coherence_ctrls.h:247-274 | The access is skipped if and only if a put finds its line gone, a PUTX becomes a PUTS if and only if it was downgraded, and the panic is unreachable |
| `Coherence.Hierarchy.BccProcessAccess` | zsim/src/coherence_ctrls.cpp:87-151 | Which requests are served at once and which wait for the parent; a PUTS, and a GETS on a valid line, change nothing; a GETS that memory answers ends in E, or in S with NOEXCL; a PUTX and a GETX end in M; the final-state assertions hold |
| `Coherence.Hierarchy.ProcessWritebackOnAccess` | zsim/src/coherence_ctrls.cpp:153-160 | The cache is then in M, and keeps coherence |
| `Coherence.Hierarchy.TccPut` | zsim/src/coherence_ctrls.cpp:266-280 | A put removes the child from the sharers and invalidates it; the parent's other fields and every other line stay as they are; a PUTX comes only from the exclusive sharer |
| `Coherence.Hierarchy.TccGets` | zsim/src/coherence_ctrls.cpp:281-304 | E if and only if nobody shares, the cache has exclusive permission and NOEXCL is not set; otherwise S, with the exclusive sharer downgraded |
| `Coherence.Hierarchy.TccGetx` | zsim/src/coherence_ctrls.cpp:305-326 | The child ends in M as the only sharer, and every other copy below is invalidated; a writeback is reported if and only if one of them was dirty |
| `Coherence.Hierarchy.Begin` | zsim/src/cache.cpp:61-126 | One access from its parent's lock on: a put whose line is gone is dropped; a request that the cache can serve makes exactly the change of its answer to every line, below, here and at the child; any other changes nothing and waits for the next level; dirty data stays held |
| `Coherence.Hierarchy.Resume` | zsim/src/coherence_ctrls.h:347-390 | From the answer of the next level on: exactly the change of the answer to every line, with its NOEXCL flag, or the end of the core's access, which changes none |
| `Coherence.Hierarchy.CoreAccess` | zsim/src/coherence_ctrls.h:465-472 | Loads and stores at any cache keep the invariant; a load leaves a valid line in its state and takes an invalid one to E, or S with NOEXCL; a store that is served leaves the line in M |
| `Coherence.Hierarchy.Evict` | zsim/src/coherence_ctrls.cpp:56-85 | An eviction leaves no sharers and everything below in I, sends PUTX if the line was dirty here or below and PUTS if it was otherwise valid, nothing if it was invalid, and at the last level leaves memory up to date |
| `Coherence.Hierarchy.Run` | zsim/src/coherence_ctrls.cpp:56-332 | Over every schedule of loads, stores, evictions, services and answers in any order, each taken whenever the locks are free: coherence, every request in a state it may be in, dirty data held in some cache in M until a PUTX reaches memory, and a cache in M only if a store wrote the line or is on its way, so that no run without stores takes a line to M; no assertion or panic of the inclusive paths fires |
| `Coherence.Hierarchy.NoDeadlock` | zsim/src/coherence_ctrls.h:309-318 | While some request is pending, some cache can begin a service or resume one, so waiting with the bottom lock free never deadlocks |
| `Barrier.Barrier.RejoinAtOnce` | zsim/src/barrier.h:131-137 | For a waiting thread whose `lastIdx` the cursor has passed, the assertion made on rejoining, `runList[lastIdx] == tid`, holds if and only if the thread has synced in this phase |
| `Barrier.LeaveUnwoken` | zsim/src/barrier.h:127-143 | A run after which it would fail: two threads join, and the second leaves before it was ever woken |
| `Barrier.AllLeft` | zsim/src/barrier.h:203-206 | `leftThreads` equals the size of the run list if and only if nobody runs or waits |
| `Barrier.ListSize` | zsim/src/barrier.h:85-87 | The run list has as many entries as there are threads that are not OFFLINE |
| `Barrier.RoomFor` | zsim/src/barrier.h:127-128 | There is always room on the list for an OFFLINE thread |
| `Barrier.SwapThreads` | zsim/src/barrier.h:131-145 | The same-phase swap, and each swap of the shuffle, keep the list exact, all states, and every `lastIdx` that matters |
| `Barrier.DropThread` | zsim/src/barrier.h:219-231 | Each removal of the cleanup pass takes exactly one LEFT thread off the list and keeps it exact |
| `Barrier.CursorMoves` | zsim/src/barrier.h:256-273 | One step of the cursor wakes the thread under it if and only if it waits, and touches no other |
| `Barrier.SamePhaseOver` | zsim/src/barrier.h:275-279 | Waking threads never changes whether the phase is over |
| `Barrier.OverForTheOthers` | zsim/src/barrier.h:201-206 | When the last running thread stops, the phase is over if and only if all the others that wait have synced |
| `Barrier.Barrier.CheckRunList` | zsim/src/barrier.h:256-273 | Wakes exactly the waiting threads that the cursor passes; free parallelism afterwards means the cursor is at the end; the wakeup-race panic is unreachable |
| `Barrier.Barrier.Compact` | zsim/src/barrier.h:212-236 | Takes exactly the LEFT threads OFFLINE, and the assertion on their number holds |
| `Barrier.Barrier.Shuffle` | zsim/src/barrier.h:239-252 | The run list becomes the Fisher-Yates shuffle of itself with the next random numbers, `runListSize - 1` of them; no thread changes its state |
| `Barrier.EveryOrder` | zsim/src/barrier.h:239-252 | For any order of the same threads there are random numbers with which the shuffle leads to it |
| `Barrier.Barrier.CheckEndPhase` | zsim/src/barrier.h:201-254 | Calls back once if and only if nobody runs, everybody who waits has synced in this phase, and somebody waits; then the LEFT threads are OFFLINE and off the list if the phase number was a multiple of 32, and as they were otherwise, the list is shuffled if not all can run at once, and the cursor starts again |
| `Barrier.Barrier.TryWakeNext` | zsim/src/barrier.h:275-279 | Restores the full invariant; within a phase only the waiting threads that the cursor passes change, so no synced thread is woken again; at its end the cleanup and the shuffle come before the wakeups |
| `Barrier.Barrier.Join` | zsim/src/barrier.h:124-163 | Never ends a phase; an OFFLINE thread is appended to the list, and a LEFT one that the cursor has passed becomes the next to be woken; wakes the thread itself if and only if there is free parallelism, and nobody else |
| `Barrier.Barrier.Leave` | zsim/src/barrier.h:166-178 | Ends the phase if and only if the thread was running, the others are done and somebody waits; every other thread goes on as the wakeups, the cleanup at every 32nd phase and the shuffle say; if the thread was waiting, no other thread, the list nor the cursor changes |
| `Barrier.Barrier.Sync` | zsim/src/barrier.h:181-198 | Ends the phase if and only if no other thread runs and all that wait have synced; every other thread goes on as the wakeups, the cleanup at every 32nd phase and the shuffle say |
| `Barrier.Barrier.WokenMayLeave` | zsim/src/barrier.h:127-137 | A waiting thread that was woken since it was last put on the list meets the precondition for leaving |
| `ZArray.Geometry.PosMeaning` | zsim/src/cache_arrays.cpp:108 | Each way has a part of the lookup table of its own, and an address is in it at the set that its hash says |
| `ZArray.ParentIsFirst` | zsim/src/cache_arrays.cpp:172-194 | The parent of a minimum-index candidate is itself the minimum-index candidate for its line |
| `ZArray.PathIsChain` | zsim/src/cache_arrays.cpp:172-194 | The path from a minimum-index candidate back to a seed never meets a line twice, and each step is between two hash positions of one line |
| `ZArray.RelocationIsPermutation` | zsim/src/cache_arrays.cpp:202-209 | The relocations leave `lookupArray` a permutation |
| `ZArray.InsertKeepsTables` | zsim/src/cache_arrays.cpp:202-216 | After an insertion every stored address is still at one of its own hash positions |
| `ZArray.InsertChangesOneLine` | zsim/src/cache_arrays.cpp:202-216 | As a map from address to line, the contents lose the victim, gain the new address, and change nowhere else |
| `ZArray.StoredIsReachable` | zsim/src/cache_arrays.cpp:98-116 | Every stored address is found at one of its hash positions |
| `ZArray.OnlyOwnWay` | zsim/src/cache_arrays.cpp:137-150 | Of a line's hash positions exactly one, its present one, holds the line itself |
| `ZArray.Array.constructor` | zsim/src/cache_arrays.cpp:70-88 | The initial tables are valid and empty |
| `ZArray.Array.Lookup` | zsim/src/cache_arrays.cpp:98-116 | Finds a stored address at its line, and -1 for any other |
| `ZArray.Array.Expand` | zsim/src/cache_arrays.cpp:137-163 | Each expansion adds exactly `ways - 1` candidates and writes no further than `candidates[cands + ways]` |
| `ZArray.Array.Explore` | zsim/src/cache_arrays.cpp:118-168 | The walk terminates. It starts with the position of the new address in every way, expands candidate after candidate, offering every other position of its line, and stops as soon as there are `cands` candidates or one of them is free |
| `ZArray.Array.FillSwapArray` | zsim/src/cache_arrays.cpp:172-194 | The swap path has at most `cands/ways + 1` entries, within the buffer, and is the path to the first candidate |
| `ZArray.Array.Preinsert` | zsim/src/cache_arrays.cpp:118-200 | Any of the first `cands` candidates may be chosen; `lastCandIdx` is the first candidate with its line, the swap path leads from there to a seed, and what it prepares is what `postinsert` needs |
| `ZArray.Array.Postinsert` | zsim/src/cache_arrays.cpp:202-217 | The map changes exactly by the victim's address and the new one, which gets the victim's line; the lookup table changes exactly by the shift along the prepared chain |
| `ActWindow.AddedMultiset` | zsim/src/ddr_mem.h:59-74 | The oldest activation leaves and the new one comes, in whatever order activations arrive |
| `ActWindow.AddedSorted` | zsim/src/ddr_mem.h:59-74 | The window stays sorted if and only if the new activation is not earlier than the second-oldest entry |
| `ActWindow.Lanes` | zsim/src/ddr_mem.cpp:483-486 | A run that waits tFAW after the entry the window shows splits into as many well-spaced lanes as the window has entries |
| `ActWindow.AtMostNPerWindow` | zsim/src/ddr_mem.h:40-43 | So at most that many activations fall in any tFAW interval, even when the window gets out of order |
| `ActWindow.Window.AddActivation` | zsim/src/ddr_mem.h:59-74 | The circular buffer and its scan compute `Added` on the entries, oldest first, wrap-around included |
| `ClockDomains.RoundTrip` | zsim/src/ddr_mem.h:253-258 | For all m >= 1 when memFreq < sysFreq/2, on 64-bit words, `sysToMemCycle(matchingMemToSysCycle(m)) == m` if and only if (2m-1) * sysFreq fits the word; the result is never beyond m |
| `ClockDomains.SysToMemMeaning` | zsim/src/ddr_mem.h:250 | While the product fits the word, a system cycle belongs to the memory cycle that it starts in, counted from 1 |
| `ClockDomains.MemToSysMeaning` | zsim/src/ddr_mem.h:251 | Likewise a response comes with the last system cycle that starts by the end of the memory cycle after it |
| `ClockDomains.MatchingMeaning` | zsim/src/ddr_mem.h:253-258 | And an event is set to the last system cycle that starts by the middle of its memory cycle |
| `ClockDomains.SysToMemMonotone` | zsim/src/ddr_mem.h:250 | System cycles translate monotonically |
| `ClockDomains.ArmedCycle` | zsim/src/ddr_mem.cpp:336-338 | With the clamp to the current cycle an event is not in the past, and runs in the memory cycle it was armed for if and only if the product fits the word or that cycle is the current one |
| `ClockDomains.AnswerNotInPast` | zsim/src/ddr_mem.cpp:606-607 | A response decided now is not in the past after translation |
| `FrFcfs.InsertedOk` | zsim/src/ddr_mem.cpp:384-419 | An arrival keeps `rowHitSeq` within the limit and counting up along each chain of row hits, and each row in order of arrival |
| `FrFcfs.InsertedMultiset` | zsim/src/ddr_mem.cpp:384-419 | Queueing adds the request and nothing else |
| `FrFcfs.Overtakes` | zsim/src/ddr_mem.cpp:384-419 | A new request goes before another of its bank exactly if an earlier one is the last to the new one's row and its chain of hits is not full |
| `FrFcfs.ArrivalKeepsAhead` | zsim/src/ddr_mem.cpp:384-419 | No arrival raises the number of requests that can still go before one that is queued |
| `FrFcfs.ServiceLowersAhead` | zsim/src/ddr_mem.cpp:627-629 | Every service lowers it |
| `FrFcfs.BoundedBypass` | zsim/src/ddr_mem.cpp:384-419 | Whatever arrives later, a request waits for at most (chains ahead of it on arrival) * (rowHitLimit + 1) others of its queue |
| `FrFcfs.BoundedInHistory` | zsim/src/ddr_mem.cpp:384-419 | The same for every arrival in any history of a bank list, from an empty list on |
| `FrFcfs.Queue` | zsim/src/ddr_mem.cpp:384-419 | The backward scan over the linked list puts the request where the specification says |
| `DdrTiming.TakenObeys` | zsim/src/ddr_mem.cpp:549-600 | A column command with the activation it needs obeys all the rules below against everything issued before |
| `DdrTiming.TakenKeeps` | zsim/src/ddr_mem.cpp:549-600 | The fields kept per bank and per channel still cover the whole past afterwards |
| `DdrTiming.SoundRefreshed` | zsim/src/ddr_mem.cpp:634-656 | So they do after a refresh: no later activation precedes its end |
| `DdrTiming.ActCycleIsEarliest` | zsim/src/ddr_mem.cpp:474-485 | The activation waits for exactly its request, the precharge, which of an open row waits for the request too, tRRD since the last activation of the bank and tFAW since the oldest in the window |
| `DdrTiming.MinCmdCycleIsEarliest` | zsim/src/ddr_mem.cpp:470-490 | A request that hits the open row waits for exactly its arrival and the last command, any other for exactly its activation and tRCD |
| `DdrTiming.PrechargeIsEarliest` | zsim/src/ddr_mem.cpp:586-594 | After a column command the precharge waits for exactly tRAS since the activation, tWR after a write's data or tRTP after a read, and whatever it waited for before |
| `DdrTiming.Channel.Issue` | zsim/src/ddr_mem.cpp:547-599 | In every run: data bursts are disjoint, a column command hits the row that is open and comes tRCD after the activation, activations of a bank are tRAS + tRP (and tRRD) apart and respect tRTP, tWR and refreshes, reads wait tWTR after writes; the command is delayed past the current cycle only by tWTR; the assertion on `lastCmdCycle` holds |
| `DdrTiming.Channel.Refresh` | zsim/src/ddr_mem.cpp:634-656 | A refresh starts at the first cycle, not before the current one, at which every bank may be precharged, closes all of them until it is done, and keeps all the rules |
| `DdrTiming.Channel.FourActivationWindow` | zsim/src/ddr_mem.cpp:485-485 | No five activations of a rank fall within tFAW, over every run |
| `DdrTiming.Channel.RanksKeepRrdIf` | zsim/src/ddr_mem.cpp:568 | If tRRD is 0 or every bank has a rank of its own, any two activations of one rank are at least tRRD apart, over every run |
| `DdrTiming.ActivateTogether` | zsim/src/ddr_mem.cpp:568 | Otherwise not: whatever the parameters, any two banks of one rank can be activated in the same cycle |
| `DdrTiming.MinCmdBy` | zsim/src/ddr_mem.cpp:470-490 | A request can go within a fixed slack of the latest cycle recorded for its bank, its rank and its arrival |
| `DdrTiming.SteppedBy` | zsim/src/ddr_mem.cpp:549-600 | Issuing one request moves the latest cycle recorded anywhere on by a fixed stride at most |
| `DdrController.QueuedOk` | zsim/src/ddr_mem.cpp:345-419 | Queueing keeps each request in exactly its own bank's list as well |
| `DdrController.DequeuedOk` | zsim/src/ddr_mem.cpp:627-629 | So does serving a request that is first in its bank |
| `DdrController.HeadExists` | zsim/src/ddr_mem.cpp:516-534 | A queue that is not empty has a request that is first in its bank |
| `DdrController.ServedConserved` | zsim/src/ddr_mem.cpp:601-629 | Serving a request moves its event from waiting to past, for every event |
| `DdrController.JoinedConserved` | zsim/src/ddr_mem.cpp:345-354 | Queueing, from outside or from the overflow queue, neither loses nor repeats an event; a write is answered at once |
| `DdrController.DDRMemory.Enqueue` | zsim/src/ddr_mem.cpp:296-343 | Each event comes in once: last in the overflow queue if a queue is full, else last in its own queue, whatever still waits in the overflow queue; if it is then first in its bank, the event is armed for the cycle at which it has arrived, the bus is free and its bank is ready, unless it is due earlier, and otherwise the arming stays; the armed cycle stays within a fixed bound of all that is recorded |
| `DdrController.LaterGoesFirst` | zsim/src/ddr_mem.cpp:296-343 | A run in which a request is queued while one that came before it still waits in the overflow queue, for any timing and clocks |
| `DdrController.DDRMemory.AdmitOverflowed` | zsim/src/ddr_mem.cpp:433-451 | The first overflowed request becomes the last of its own queue; if it is first in its bank the next cycle is lowered to the bus-free cycle, and otherwise it stays |
| `DdrController.DDRMemory.Queue` | zsim/src/ddr_mem.cpp:345-419 | A write is answered here, a read is not; the bank list is the FR-FCFS insertion |
| `DdrController.DDRMemory.TrySchedule` | zsim/src/ddr_mem.cpp:491-632 | Serves the first request, in order of arrival, that is first in its bank and ready, from the queue whose turn it is, and only if the bus is not taken too far ahead. With a read queued, that is the read queue as long as at most three quarters of `queueDepth` writes are, or, after a write, at most a quarter, and the write queue otherwise. The last command is then the column command of that request. Serves nothing only if the bus is taken, or no such request is ready, and then returns the first cycle at which that ends; returns -1 if and only if nothing is queued; never returns a past cycle, nor one beyond a fixed bound |
| `DdrController.DDRMemory.Arm` | zsim/src/ddr_mem.cpp:325-340 | Annuls the armed event, if any, and arms exactly one, which is then not on the free list |
| `DdrController.DDRMemory.Tick` | zsim/src/ddr_mem.cpp:426-461 | The tick runs in the memory cycle it was armed for. It serves at most one request, and admits the first overflowed one, last into its own queue, if and only if there is room; if it does neither the queues are as they were and it re-arms strictly later. It re-arms exactly for the cycle that the attempt to schedule returned, lowered to the bus-free cycle if the admitted request is first in its bank; it returns 0 if and only if nothing is left to do, so no pending request loses its event |
| `DdrController.DDRMemory.Simulate` | zsim/src/ddr_mem.cpp:114-132 | Queued and annulled events alike leave the invariant intact; a queued one makes the progress of a tick, an annulled one is recycled and changes nothing else; the assertions of `annul`, `enqueue` and `recycleEvent` hold |
| `DdrController.DDRMemory.PendingMeansArmed` | zsim/src/ddr_mem.cpp:320-341 | Requests are pending if and only if one event is queued, and it is the only one |
| `DdrController.DDRMemory.IdleMeansDone` | zsim/src/ddr_mem.cpp:426-461 | When nothing is pending every event has been answered and served exactly as often as it arrived |
| `DdrController.DDRMemory.ListedOnce` | zsim/src/ddr_mem.cpp:345-419 | A queued request, read or write, stands once in its own bank's list and in no other |
| `DdrController.DDRMemory.PendingOnce` | zsim/src/ddr_mem.cpp:296-461 | An event that arrived once has been served, or waits at exactly one place of the overflow queue, the read queue and the write queue |
| `DdrController.DDRMemory.Drive` | zsim/src/ddr_mem.cpp:296-461 | Over every run of arrivals, events and refreshes, each taken whenever it is possible: conservation, arming, timing and the bank lists' order all hold |
| `DdrController.DDRMemory.Drain` | zsim/src/ddr_mem.cpp:426-632 | Without further arrivals or refreshes, running the armed event over and over ends with all queues empty and every event answered, and its request served, exactly as often as it arrived, or with a cycle beyond the horizon; that cannot be if the horizon leaves a fixed stride for each thing left to do |
| `DdrController.DDRMemory.BypassIsBounded` | zsim/src/ddr_mem.cpp:384-419 | In every run of the controller, since any arrival in a bank list, at most (chains then ahead of it) * (rowHitLimit + 1) requests of that list have been served before it |
| `RwMutex.StepKeepsInv` | zsim/src/mutex.h:111-176 | Every atomic step of every thread keeps the invariant |
| `RwMutex.RunKeepsInv` | zsim/src/mutex.h:111-176 | So does every interleaving of any number of threads |
| `RwMutex.WritersAreAlone` | zsim/src/mutex.h:96-99 | A writer never shares the mutex with a reader or another writer |
| `RwMutex.DowngradeIsAtomic` | zsim/src/mutex.h:145-163 | No writer gets in between a downgrading writer's write section and its read section, even while `wq` is briefly free |
| `RwMutex.DowngradeFindsAtMostOneReader` | zsim/src/mutex.h:165-173 | The assertion in case 3 holds: at most one reader is counted, and it is the one blocked on `wq` |
| `RwMutex.ReadersStayExact` | zsim/src/mutex.h:179-181 | `readers` is always the number of threads that counted themselves; the word never wraps |
| `RwMutex.NoDeadlock` | zsim/src/mutex.h:111-176 | If nobody is in a section and some thread is inside an operation, some thread can move |
| `RwMutex.StepLeads` | zsim/src/mutex.h:111-176 | A thread can begin or go on with an operation exactly where that makes sense and no lock that it wants is held; each step then brings it closer to where the operation leads; an upgrading reader, last or not, comes to the section of a writer, and only by asking for the write lock from the start |
| `RwMutex.OperationLeads` | zsim/src/mutex.h:111-176 | Whatever the other threads do in between, a thread that goes on with its operation gets nearer to where that leads and nowhere else |
| `RwMutex.Mutex.RdLock` | zsim/src/mutex.h:111-114 | Each step of the method is a step of the state machine |
| `RwMutex.Mutex.RdUnlock` | zsim/src/mutex.h:116-118 | Each step of the method is a step of the state machine |
| `RwMutex.Mutex.WrLock` | zsim/src/mutex.h:120-123 | Each step of the method is a step of the state machine |
| `RwMutex.Mutex.WrUnlock` | zsim/src/mutex.h:125-127 | The step of the method is a step of the state machine |
| `RwMutex.Mutex.Upgrade` | zsim/src/mutex.h:131-136 | Each step of the method is a step of the state machine |
| `RwMutex.Mutex.Downgrade` | zsim/src/mutex.h:138-176 | Each step of the method is a step of the state machine |
| `Lookahead.GetMaxMarginalUtility` | zsim/src/lookahead.cpp:38-55 | The best utility over 1..balance buckets, with the rounding of doubles, and the least number that reaches it; `UtilityOrder` says what a utility is worth |
| `Lookahead.ComputePartitioningTotalUtility` | zsim/src/lookahead.cpp:57-66 | The misses saved over no cache at all, as a 64-bit difference |
| `Lookahead.UtilityOrder` | zsim/src/lookahead.cpp:45-46 | On any curve and under any admissible rounding, a number of buckets that saves at least as much per bucket as another, of the same partition or another, has at least its utility |
| `Lookahead.UtilityOrderIff` | zsim/src/lookahead.cpp:45-46 | Without rounding, if and only if it does |
| `Lookahead.OneBucketIsBest` | zsim/src/lookahead.cpp:43-52 | On a convex curve a single bucket is worth the most per bucket, under any monotone rounding that is exact on integers up to 2^53 |
| `Lookahead.PriceExists` | zsim/src/lookahead.cpp:81-109 | A greedy allocation has a price that separates what was bought from what was not |
| `Lookahead.SupportingLine` | zsim/src/lookahead.cpp:38-55 | A convex curve lies above its supporting line |
| `Lookahead.MissesAbovePrice` | zsim/src/lookahead.cpp:81-109 | Any other allocation misses at least as much as the price of the difference says |
| `Lookahead.GreedyIsOptimal` | zsim/src/lookahead.cpp:68-109 | A greedy allocation on convex curves has the fewest misses of all with the same total, minimum and forbidden partitions |
| `Lookahead.Round` | zsim/src/lookahead.cpp:81-108 | The allowed partition with the highest utility, and the first of those, gets the least number of buckets that reaches it. On falling curves of any shape no other partition and number of buckets would have saved more misses per bucket if nothing is rounded, and with rounding, if the winner saves at most a whole number of misses per bucket then all others save less than one more |
| `Lookahead.LooksAhead` | zsim/src/lookahead.cpp:38-109 | A partition that saves nothing with one bucket but 100 misses with two gets both, before one that saves 30 with each |
| `Lookahead.ComputeBestPartitioning` | zsim/src/lookahead.cpp:68-109 | Goes from the minimum allocations, by rounds that each give the best partition what it wants, to where nothing is left; terminates on any curves; hands out exactly `buckets - minAlloc` beyond the initial values, all within the minimum and forbidden partitions, if and only if `minAlloc <= buckets`; on convex curves the result is then optimal |
| `Lookahead.RoundingHidesTheBest` | zsim/src/lookahead.cpp:38-55 | Two convex curves with 2^53 and 2^53 + 1 misses, on which rounding makes the partitioner give the only bucket to the worse partition |
| `FilterCache.TakenAway` | zsim/src/filter_cache.h:151-162 | An entry still tells the truth after an invalidation or downgrade if and only if it did not rely on the line |
| `FilterCache.SameIndex` | zsim/src/filter_cache.h:154 | Virtual and physical line address have the same filter index |
| `FilterCache.FilterCache.Load` | zsim/src/filter_cache.h:102-112 | A load hits if and only if the entry names the line, and is then answered at the later of the current cycle and the cycle at which the line arrives; for every line but 0 a hit means that the L1 holds the line valid |
| `FilterCache.FilterCache.Store` | zsim/src/filter_cache.h:114-126 | A store hits if and only if the entry names the line as writable, and is then answered at the later of the current cycle and the cycle at which the line arrives; for every line but 0 a hit means that the L1 holds the line in M |
| `FilterCache.ZeroAlwaysHits` | zsim/src/filter_cache.h:51 | For line 0 it does not: in a new filter a load and a store of line 0 hit, and the L1 does not hold it |
| `FilterCache.FilterCache.Replace` | zsim/src/filter_cache.h:128-135 | A miss starts an access for that line; it evicts, and only within its own set, if and only if looking the line up finds none |
| `FilterCache.FilterCache.Insert` | zsim/src/cache_arrays.cpp:61-65 | An L1 eviction can only hurt the entry that the access is about to overwrite |
| `FilterCache.FilterCache.Finish` | zsim/src/filter_cache.h:135-149 | The entry is exactly the new line, writable only after a store, and its availCycle changes only with the line; the L1 line ends in M after a store, and after a load in its old state or the one that was granted; nothing else changes |
| `FilterCache.FilterCache.Invalidate` | zsim/src/filter_cache.h:151-162 | The filter stays truthful if and only if its entry is about to be overwritten, or did not rely on what was taken, or the caller's process mask shows it the line; with the core's own mask it always does |
| `FilterCache.ForeignInvalidation` | zsim/src/filter_cache.h:154 | With any two different masks: a line is loaded, the other process invalidates it, and the filter still names it though the L1 no longer holds it |
| `FilterCache.FilterCache.ContextSwitch` | zsim/src/filter_cache.h:164-168 | Forgets everything, and the core may then run a process with another mask |
| `FilterCache.FilterCache.Run` | zsim/src/filter_cache.h:102-168 | Over every run of loads, stores, evictions, invalidations, downgrades and context switches, each taken whenever it is possible, the filter stays truthful |
| `IdealLru.RecencyMeaning` | zsim/src/ideal_arrays.h:81-111 | The recency order holds exactly the addresses used, latest use first |
| `IdealLru.TouchIsRecency` | zsim/src/ideal_arrays.h:81-111 | One access turns the n most recent addresses into the n most recent addresses |
| `IdealLru.LinesAreMostRecent` | zsim/src/ideal_arrays.h:81-111 | After any trace an n-line array of true LRU holds exactly the n most recently used addresses, in order |
| `IdealLru.LargerArrayHitsMore` | zsim/src/ideal_arrays.h:81-111 | Whatever a smaller array holds a larger one holds too |
| `IdealLru.IdealLruArray.Lookup` | zsim/src/ideal_arrays.h:81-91 | Hits if and only if the map has the address, which for nonzero ones means that a line holds it, and then moves it to the front |
| `IdealLru.IdealLruArray.Preinsert` | zsim/src/ideal_arrays.h:93-97 | The victim is the line at the back |
| `IdealLru.IdealLruArray.Postinsert` | zsim/src/ideal_arrays.h:99-111 | The victim's line gets the new address and goes to the front; the map stays exact |
| `IdealLru.IdealLruArray.Access` | zsim/src/ideal_arrays.h:81-111 | An access hits if and only if the address is one of the n most recently used, and leaves the lines those of true LRU; so it goes on over the whole trace, unless the access is to address 0 while other lines are unused |
| `IdealLru.IdealLruArray.ForgetZero` | zsim/src/ideal_arrays.h:99-107 | Address 0 is used while two lines are unused, then any new address, and address 0 is no longer found |
| `IdealLru.ZeroThenOther` | zsim/src/ideal_arrays.h:99-107 | Yet it is one of the n most recently used then |
| `IdealLru.IdealLruArray.StoredOnce` | zsim/src/ideal_arrays.h:99-107 | No address is stored twice, and the map knows every one that is stored |
| `IntrusiveList.InList.Front` | zsim/src/intrusive_list.h:85 | The head is the first element, or null if and only if the list is empty |
| `IntrusiveList.InList.Back` | zsim/src/intrusive_list.h:86 | The tail is the last element, or null if and only if the list is empty |
| `IntrusiveList.InList.PushFront` | zsim/src/intrusive_list.h:88-101 | The element comes first, and the links, owner and count stay exact |
| `IntrusiveList.InList.PushBack` | zsim/src/intrusive_list.h:103-115 | The element comes last |
| `IntrusiveList.InList.PopFront` | zsim/src/intrusive_list.h:117-124 | The first element leaves, if there is one |
| `IntrusiveList.InList.Remove` | zsim/src/intrusive_list.h:136-143 | The element leaves wherever it was, and the order of the others is kept |
| `IntrusiveList.InList.InsertAfter` | zsim/src/intrusive_list.h:145-155 | The element comes right after the given one |
| `IntrusiveList.InList.NotMember` | zsim/src/intrusive_list.h:39-57 | A node without owner is in no list |
| `DataBus.CollidesMeansNotApart` | zsim/src/detailed_mem.cpp:265-268 | The source's collision test is exact: it fails if and only if the bursts are a turnaround apart |
| `DataBus.InsertedKeepsLog` | zsim/src/detailed_mem.cpp:197-200 | Sorting in a new burst keeps the log ordered and its bursts apart |
| `DataBus.DroppedCovers` | zsim/src/detailed_mem.cpp:201-204 | Dropping the oldest entry and widening the next one to start at 0 still covers all that was placed |
| `DataBus.CoveredAreApart` | zsim/src/detailed_mem.cpp:197-205 | What keeps clear of the log keeps clear of every burst ever placed |
| `DataBus.Channel.CalcInterIssueCycle` | zsim/src/detailed_mem.cpp:254-271 | First fit: the earliest cycle, not before arrival, whose burst keeps clear of the log; every earlier one is blocked |
| `DataBus.Channel.UpdateDataBusCycle` | zsim/src/detailed_mem.cpp:197-205 | The burst is sorted into the log, which drops its oldest entry and widens the next one if it was full; all bursts placed in the run stay pairwise disjoint with a tRTRS gap, though the log keeps only the last ones |
| `DataBus.Channel.LatencySimulate` | zsim/src/detailed_mem.cpp:349-440 | An access books exactly one more burst, the first one from its ready cycle and data latency on that keeps clear of the log, and its reported latency ends with that burst |

## Left out

- Several lines at once: `Coherence` follows one line; the controllers' locks are per cache, so the model
  allows more interleavings than the code does. Which line is evicted is arbitrary.
- Invalidations as separate steps: an INV or INVX goes through its whole subtree in one step, enabled when
  no cache that it reaches is locked; the locks that its sender holds on the way make this equivalent.
- `nonInclusiveHack`, the NUCA flags, PUTX_KEEPEXCL (which nothing sets), FWD and PREFETCH, latencies,
  network delays and profiling counters of the coherence controllers.
- Futex waiting, spinning, timeouts and memory ordering: every lock and unlock is one step. The wait loops
  of `join` and `sync` are not part of the model; the thread that wakes another sets its state.
- The phase callback of the barrier is a counter, and its random numbers are any stream of numbers within
  their bounds; `parallelThreads` is at least 1.
- The hash functions and the replacement policy of the ZCache array: an arbitrary position per way, and an
  arbitrary candidate.
- DdrController.DDRMemory.Tick: requires that the armed cycle is within a horizon up to which the clock
  conversions do not overflow; other cycles are unbounded integers.
- The controller's request queues and bank lists are sequences in `DdrController`; the linked lists
  themselves are in `IntrusiveList` and `FrFcfs.Queue`. The activation windows are sequences, oldest first,
  in `DdrTiming`; the circular buffer is in `ActWindow`.
- Address mapping, response delays and statistics of the DDR controller; the bound-phase latencies.
- FilterCache.FilterCache.Run: invalidations by threads of other processes are in `Invalidate` only.
- The line addresses of the ideal LRU array are in a sequence of the array rather than in the list nodes.
- The partitioned variant of the ideal LRU array: its initialisation loop runs past its allocation.
- DataBus.Channel.LatencySimulate: does not model row state, refresh, power-down or rank constraints, which
  only choose when the command is ready; with power-down on, a penalty moves a burst off its slot.
- `UMonMonitor`, the contention simulation, the core recorders, configuration and statistics.
