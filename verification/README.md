# ixy: ownership of packet buffers and memory blocks

ixy is a userspace driver for the Intel 82599. Driver and NIC share descriptor rings and packet buffers without locks, so everything depends on who owns a buffer at which moment. This project models the two rings, the packet pool, the two example applications, the spinlocks and the composable allocators, and proves what their steps keep over whole runs.

The rings are state machines whose steps are the single loads and stores of `ixgbe_tx_packet` and `ixgbe_rx_packet`; NIC steps may fall between any two of them. The same functions are also written in place, on arrays, as classes (`TxQueue`, `RxQueue`, `PacketPool`), with an arbitrary amount of NIC activity after every store; each store there is proved to be a step of the state machine. The applications are endless loops; they appear as state machines over all finite runs (`Forwarder` with `ForwarderRuns`, `ForwarderData` and `ForwarderAsWritten` and `ForwarderSharing`, `Pktgen`) and as loops in place over any number of rounds (`ForwarderLoop`, `PktgenLoop`). Locks are state machines over atomic steps of any number of threads. Ring sizes, pool sizes, thread numbers, tree shapes and tower heights are arbitrary throughout.

What is assumed of the NIC:

- Transmit: it fetches descriptors in order from the head register up to, not including, the tail register; it writes a fetched descriptor back once, at any later moment and in any order, with the done bit set and the other bits arbitrary; it reads a buffer only before that write-back.
- Receive: it fills descriptors in order from head up to, not including, tail; it stores the packet, at least one byte, at the address in the descriptor and then overwrites the whole descriptor with the done bit set and the packet's length. In `RxSystem` and the forwarder's state machine packets have any length up to a bound, and one that is too long overwrites the buffers behind; results that need packets to fit say so, and `RxSystem.HeadersSurviveIff` gives the exact condition. In `RxQueue` packets fit.

Memory is sequentially consistent. Buffers are named by their index in the pool; `Memory` proves when indices and recorded bus addresses correspond. A write below the data offset overwrites the header fields it reaches, and `pkt_buf_free` pushes whatever index it finds. All modules take the other two uses of a header as if it were intact: a free goes to the pool the buffer came from, although it follows `mempool`, and a buffer is posted at its own data area, although the address is read from `buf_addr_phy`. `RxSystem.HeadersSurviveIff` says when that is so.

Where the source departs from its own intent, the source is modelled as it is and the result says so:

- `ixgbe_rx_packet` never stores the new buffer in `virtual_addresses`. The state machine has a flag for the missing store. `RxAsWritten` proves what the source does, whatever offset the start uses: every lap returns the buffers of the first lap, a run is right exactly if it returns at most n packets, and some run hands a buffer out twice exactly if the pool has two buffers beside the ring. `RxSystem` proves delivery and ownership with the store added. `ForwarderData` and `ForwarderAsWritten` do the same for the forwarder, and `ForwarderSharing` says when a buffer is then open to both NICs or queued twice. `RxQueue` is the function as written.
- `start_rx_queue` posts buffers without the data offset. `RxSystem.HeadersSurviveIff` and `Memory.DmaSafeIff` give the exact condition; `RxQueue` and `ForwarderLoop` cover both starts.
- `memory_allocate_dma` translates the first page only. `Memory.RecordedIffPagesInPlace` and `Memory.FirstPageEnoughIff` say when the recorded bus addresses are right.
- The forwarder ignores a transmit result of 0 and loses the buffer. `ForwarderRuns.DiesIff` proves that some run then ends on an empty pool, whatever the pool's size, and that a loop which frees the buffer never does if the pool has nrx + ntx buffers.
- The stack allocator's range check is one entry too wide at the end and almost one at the start, because the comparison is `>` and C's division truncates. `StackAllocator.RangeCheckExactly` and `StackAllocator.DeallocGoodIff` give the exact sets.
- Products of entry count and entry size are 32-bit. `Memory.LayoutSoundIffFits` gives the exact condition for the pool; for the stack allocators `Geometry.Fits` carries the bound.

## Model

| member | source | states |
|---|---|---|
| RingIndex.PowerOfTwoTest | src/driver/ixgbe.c:90-92 | the start functions' test n & (n - 1) is zero exactly for the powers of two |
| RingIndex.WrapIffPowerOfTwo | src/driver/ixgbe.c:336-337 | the wrap macro is (i + 1) mod n on every index exactly if n is a power of two |
| Descriptors.PostedLengthExact | src/driver/ixgbe.c:426-430 | both length fields and the flags of a posted descriptor are right exactly for sizes below 2^16 |
| TxRing.DriverKeeps | src/driver/ixgbe.c:386-434 | every load or store of the transmit function keeps the ring invariant, and acts on the ring as on a FIFO: freed buffers leave at the front, a rejected one leaves at the back |
| TxRing.CallKeeps | src/driver/ixgbe.c:386-394 | entering the call puts the caller's buffer at the back and keeps the invariant |
| TxRing.FetchKeeps | src/driver/ixgbe.c:388-391 | a fetch by the NIC at any moment keeps the invariant and the FIFO |
| TxRing.WriteBackKeeps | src/driver/ixgbe.c:388-391 | a write-back at any moment and in any order keeps the invariant and the FIFO |
| TxRing.DoneIsFresh | src/driver/ixgbe.c:400-404 | a done bit seen inside the window belongs to a packet the NIC has fetched and written back since the slot was posted |
| TxRing.DriverEncodes | src/driver/ixgbe.c:421-432 | when the tail moves, the descriptor in memory is complete; no descriptor is posted half-written |
| TxRing.WriteBackEncodes | src/driver/ixgbe.c:423-430 | write-backs do not touch the descriptor that is being filled |
| TxRing.StartOk | src/driver/ixgbe.c:180-182 | the 0xFF fill has every stale done bit set, and the empty ring still satisfies the invariant |
| TxRing.WindowIsQueue | src/driver/ixgbe.c:36-41 | between calls the shadow pointers in the cyclic range [clean_index, tx_index) are the FIFO, at most n - 1 long |
| TxSystem.StepConserves | src/memory.c:86-98 | every step of application, driver or NIC keeps the multiset of free, held and queued buffers |
| TxSystem.StepKeepsIntact | src/driver/ixgbe.c:424-430 | every step keeps the contents of queued buffers equal to what was handed over |
| TxSystem.TransmitSafety | src/driver/ixgbe.c:386-434 | over every interleaving: the three kinds of buffers partition the pool; a buffer the NIC may read is not free, not held, not queued twice and unchanged; the NIC sees the accepted packets in order, correctly described; only packets it has finished with are freed |
| TxSystem.CleaningActsOnFreshBits | src/driver/ixgbe.c:400-407 | over every run, every done bit the loop acts on was written by the NIC for the packet now in the slot, and the freed pointer is that packet's buffer |
| TxQueue.Queue.constructor | src/driver/ixgbe.c:87-95 | the queue starts empty with power-of-two size and stale memory |
| TxQueue.Queue.ReadStatus | src/driver/ixgbe.c:400-410 | the test of the status word; not done means the NIC has not written the oldest packet back |
| TxQueue.Queue.ReleaseOne | src/driver/ixgbe.c:405-407 | pkt_buf_free of the oldest packet's buffer and the wrapped index step |
| TxQueue.Queue.Clean | src/driver/ixgbe.c:396-412 | the loop terminates, frees exactly a front part of the queue and stops at a packet not finished when it began |
| TxQueue.Queue.SaveClean | src/driver/ixgbe.c:413-419 | the ring counts as full exactly if n - 1 packets remain |
| TxQueue.Queue.Post | src/driver/ixgbe.c:420-433 | the stores of step 2, with the NIC acting between them, append one complete posting |
| TxQueue.Queue.TxPacket | src/driver/ixgbe.c:386-434 | frees k buffers from the front, at least all finished before the call; takes the buffer exactly if fewer than n - 1 remain, and always if the oldest packet was finished before |
| RxRing.DriverKeeps | src/driver/ixgbe.c:344-380 | every load or store of the receive function keeps the register invariant, with or without the missing shadow store |
| RxRing.StoreKeeps | src/driver/ixgbe.c:340-343 | a packet stored by the NIC at any moment goes to the posted address and keeps the invariant |
| RxRing.StoreRoom | src/driver/ixgbe.c:372-376 | the NIC never overruns an unread descriptor |
| RxRing.DoneIffStored | src/driver/ixgbe.c:346-350 | polling sees the done bit exactly if the next packet in order has been stored |
| RxRing.RegistersCyclic | src/driver/ixgbe.c:79-84 | between calls RDT = (rx_index - 1) mod n, RDH lies in the cyclic range from rx_index to RDT, and exactly the slots in [rx_index, RDH) have the done bit |
| RxRing.DriverNames | src/driver/ixgbe.c:28-29 | with the shadow store added, each shadow pointer names the buffer posted in its slot |
| RxRing.DriverConserves | src/driver/ixgbe.c:356-377 | with the shadow store, a step takes one buffer in, gives one out or changes nothing |
| RxRing.ReturnsTheFilledBuffer | src/driver/ixgbe.c:355-357 | with the shadow store, the returned buffer and size are those of the packet the NIC stored next |
| RxRing.StartOk | src/driver/ixgbe.c:67-84 | the ring as start_rx_queue leaves it satisfies the invariant |
| RxSystem.StepKeeps | src/driver/ixgbe.c:344-380 | every step of application, repaired driver or NIC keeps partition, headers, stored packets and past deliveries |
| RxSystem.ReceiveSafety | src/driver/ixgbe.c:344-380 | over every interleaving, for the repaired step: the k-th packet returned is the k-th stored, a whole packet with its length and bytes; buffers partition the pool and none is held twice; headers survive; the registers are as above |
| RxSystem.HeldIsUntouched | src/driver/ixgbe.c:344-380 | no step of the repaired driver and no DMA write touches a buffer that the application holds |
| RxSystem.HeadersSurviveIff | src/driver/ixgbe.c:57-73 | with either driver, buf_addr_phy and mempool_idx of every buffer survive every run and DMA stays in the pool exactly if the first postings add the data offset and the longest packet fits behind the header; the start as written does not add it |
| RxAsWritten.ReturnsFirstLapForever | src/driver/ixgbe.c:356-377 | as written, for every start offset: in every run the k-th returned buffer is the one of slot k mod n at the start, the first packet of lap two was stored elsewhere, and between calls the registers are in cyclic order |
| RxAsWritten.RightBufferIffFirstLap | src/driver/ixgbe.c:355-377 | as written, for every start offset: a run returns every packet in the buffer it was stored in exactly if it returns at most n packets |
| RxAsWritten.RightAddressIffFirstLap | src/driver/ixgbe.c:355-377 | with the offset added, the same for the full address of the data area |
| RxAsWritten.HandsOutABufferTwiceIff | src/driver/ixgbe.c:356-377 | as written, for every ring size and start offset: some run lets the application hold one buffer twice exactly if the pool has at least two buffers beside the ring |
| RxQueue.Queue.constructor | src/driver/ixgbe.c:63-84 | start_rx_queue: one buffer per slot popped from the pool, posted at the given offset; the queue is valid for every offset |
| RxQueue.Queue.Nic | src/driver/ixgbe.c:340-343 | any amount of NIC activity is a run of store steps, and overwrites no header but those of buffers posted below the data offset |
| RxQueue.Queue.ReadStatus | src/driver/ixgbe.c:346-353 | the three outcomes of the status word |
| RxQueue.Queue.TakePacket | src/driver/ixgbe.c:355-357 | the shadow buffer gets the length reported for the next packet in order |
| RxQueue.Queue.Allocate | src/driver/ixgbe.c:361-366 | the pool's top buffer, or the abort, exactly for an empty pool |
| RxQueue.Queue.Repost | src/driver/ixgbe.c:367-376 | descriptor reset, index and tail stores, with the NIC acting between them |
| RxQueue.Queue.RxPacket | src/driver/ixgbe.c:344-380 | the receive function as written, on a queue started at any offset: NULL only if nothing was stored before the call; otherwise the shadow buffer with the reported length, the slot refilled from the top of the pool, shadow pointers unchanged; no header changes but those of buffers posted below the data offset |
| Memory.LayoutSoundIffFits | src/memory.c:66-78 | the pool's buffers are disjoint and inside the allocated memory exactly if num_entries * entry_size < 2^32 |
| Memory.RecordedIffPagesInPlace | src/memory.c:53-78 | with the first page translated as the base and 32-bit offsets added, the recorded bus address is right for every byte of every buffer exactly if every page of the pool is in place |
| Memory.FirstPageEnoughIff | src/memory.c:53-59 | translating only the first page is enough for every layout of huge pages exactly if the pool fits one huge page |
| Memory.GapRecordsWrong | src/memory.c:53-59 | for every larger pool, a page map of huge pages under which a recorded address is wrong |
| Memory.DmaSafeIff | src/driver/ixgbe.c:368-368 | DMA misses all headers and other buffers exactly if the data offset is added and the packet fits behind it |
| PacketPool.Mempool.constructor | src/memory.c:66-84 | identity stack, headers naming their own index, and bus addresses |
| PacketPool.Mempool.Alloc | src/memory.c:86-93 | the top of the stack, or NULL exactly for an empty pool |
| PacketPool.Mempool.Free | src/memory.c:95-98 | pushes the index in the buffer's header |
| PacketPool.InitMempool | src/app/ixy-pktgen.c:13-35 | reverses the free stack and leaves the template in every buffer |
| Pktgen.GeneratorNeverStarves | src/app/ixy-pktgen.c:53-63 | in every run with N >= n the allocation is never NULL, at least N - (n - 1) buffers are free at every loop head, and every descriptor says 60 bytes in both fields |
| Pktgen.FreeAtLoopHead | src/app/ixy-pktgen.c:55-57 | the bound on free buffers when the program holds none |
| Pktgen.StarvesIff | src/app/ixy-pktgen.c:54-63 | some run uses the NULL of an empty pool exactly if the pool has fewer buffers than the ring has descriptors |
| PktgenLoop.TryOnce | src/app/ixy-pktgen.c:60-63 | one transmit attempt keeps the count of free, queued and held buffers |
| PktgenLoop.Generate | src/app/ixy-pktgen.c:54-63 | the loop in place, for any number of rounds and retries: never NULL, and the same bound |
| PktgenLoop.SendOne | src/app/ixy-pktgen.c:60-63 | the retry loop keeps the count of free, queued and held buffers |
| Forwarder.StepKeeps | src/app/ixy-fwd.c:39-44 | every step of program or NIC, with the driver as written or repaired and the loop dropping or freeing, keeps free + receive slots + in flight + lost = pool size, and the bound on losses |
| Forwarder.ForwarderConserves | src/app/ixy-fwd.c:39-44 | that equation at every loop head of every run; never more than N - nrx - (ntx - 1) buffers are lost, and a run that dies on an empty pool has lost exactly that many |
| ForwarderRuns.DiesIff | src/app/ixy-fwd.c:39-44 | some run dies on an empty pool exactly if the loop drops what is not taken, for pools of every size, or the pool has fewer than nrx + ntx buffers; so a loop that frees never dies given nrx + ntx |
| ForwarderRuns.ReceiveOn | src/driver/ixgbe.c:344-380 | with a packet waiting, the receive call run alone takes it, or aborts exactly if it needs a buffer and none is free |
| ForwarderRuns.SendOn | src/driver/ixgbe.c:386-434 | the transmit call run alone with nothing to clean ends, takes the packet exactly if fewer than n - 1 are in the ring, and otherwise costs the loop that drops a buffer |
| ForwarderRuns.SwapOne | src/app/ixy-fwd.c:39-44 | after the NIC has sent the oldest packet, a round frees that packet's buffer and takes the new packet |
| ForwarderRuns.ShippedSizes | src/driver/ixgbe.c:62-63 | with 4096 buffers and rings of 1024 some run dies, every such run after losing exactly 2049 buffers, and none if the loop frees |
| ForwarderData.StepKeepsWhole | src/app/ixy-fwd.c:39-44 | with both stores as intended, every step of program or NIC keeps ownership, packet contents and history of the forwarder over one shared memory |
| ForwarderData.ForwardsWhatItReceives | src/app/ixy-fwd.c:39-44 | with both stores as intended, over every interleaving: every buffer is in one place; no buffer is open to the receive NIC's writes and the transmit NIC's reads at once; the packets posted are the received ones minus those not taken, in order, with lengths and bytes, and unchanged while the NIC may read them; the k-th received is the k-th stored |
| ForwarderAsWritten.StepTracks | src/app/ixy-fwd.c:39-44 | with the receive function as written, every step keeps the receive side a run of the receive system, and what is out of it in the loop's hand, in flight or lost |
| ForwarderAsWritten.WrongIff | src/driver/ixgbe.c:356-377 | with the receive function as written, for every offset: a run of the forwarder receives every packet in the buffer it was stored in exactly if it receives at most nrx packets, and some run does not exactly if the pool has two buffers beside the receive ring |
| ForwarderAsWritten.RightIff | src/driver/ixgbe.c:356-377 | with the offset added, every run of the forwarder is right in this sense exactly if the shadow store is there or the pool has fewer than two buffers beside the ring |
| ForwarderSharing.StepFull | src/app/ixy-fwd.c:39-44 | with the receive function as written, every step keeps the posted buffers those of the received packets minus the ones not taken, and the count of losses |
| ForwarderSharing.SharedIff | src/driver/ixgbe.c:356-377 | with the receive function as written and either start: some run leaves a buffer open to the receive NIC's writes and the transmit NIC's reads at once exactly if the pool has two buffers beside the receive ring |
| ForwarderSharing.DoubledNeeds | src/driver/ixgbe.c:356-377 | two unfinished packets in one buffer need a transmit ring of three descriptors and a pool large enough for the receive ring, the packets between the two, and the losses the loop survives |
| ForwarderSharing.DoubledIff | src/driver/ixgbe.c:356-377 | with the receive function as written, for every offset: some run has one buffer in the transmit ring for two packets at once exactly if ntx >= 3 and the pool has 2 nrx + 1 buffers if ntx >= nrx + 2, else 2 nrx + 2 if the loop drops and nrx + ntx if it frees |
| ForwarderLoop.Forward | src/app/ixy-fwd.c:39-44 | the loop in place, for any number of rounds, with the receive queue started at any offset: the same equation and the same bounds; headers stay intact if the start added the data offset |
| ForwarderLoop.Round | src/app/ixy-fwd.c:40-44 | one round keeps the equation, loses at most one buffer, and dies only on an empty pool or a packet in several segments |
| ForwarderLoop.Receive | src/app/ixy-fwd.c:40-41 | the receive call keeps the count, or moves one buffer to the program |
| ForwarderLoop.SendOrLose | src/app/ixy-fwd.c:42-44 | a transmit result of 0 loses the buffer |
| SpinlockStack.StepKeepsLocking | src/allocator/rte_spinlock.h:107-125 | test-and-set and release keep the lock word equal to 'some thread is in the critical section', and that thread unique |
| SpinlockStack.StepKeepsStacked | src/allocator/spinlock_stack_allocator.c:19-43 | inside the critical section the stack is the sequential one, up to the steps already made |
| SpinlockStack.ChecksPass | src/allocator/spinlock_stack_allocator.c:36-40 | the checks made without the lock pass for outstanding blocks and recover the entry |
| SpinlockStack.ReadKeepsPromise | src/allocator/spinlock_stack_allocator.c:26-30 | the block an allocation reads under the lock is that of the entry the sequential allocator gives it |
| SpinlockStack.StepKeepsPartition | src/allocator/spinlock_stack_allocator.c:19-48 | free entries, the entries of the blocks in clients' hands and of the blocks in threads' hands stay all entries, each once |
| SpinlockStack.NeverOutOfBounds | src/allocator/spinlock_stack_allocator.c:26-42 | the unchecked array accesses are in bounds in every reachable state |
| SpinlockStack.Linearizable | src/allocator/spinlock_stack_allocator.c:19-48 | any number of threads, any interleaving: mutual exclusion, no failed check, every allocation returns the sequential result in lock order, the unlocked stack is the sequential one, and the blocks that clients hold or are about to get are blocks of entries, inside the region and pairwise disjoint |
| RecursiveLock.MutualExclusion | src/allocator/rte_spinlock.h:187-232 | any number of threads, any interleaving: one holder; user names a thread only if it has the inner lock; count is the holder's depth between operations |
| RecursiveLock.UserReadIsSafe | src/allocator/rte_spinlock.h:192-192 | a thread reads its own id in user exactly if it holds the lock |
| RecursiveLock.ReleasesAtOutermost | src/allocator/rte_spinlock.h:204-211 | the inner lock is given up exactly by the outermost unlock |
| RecursiveLock.TryLockFailsOnlyForOthers | src/allocator/rte_spinlock.h:221-232 | trylock fails only if another thread holds the lock, and then changes nothing |
| StackAllocator.RangeCheckExactly | src/allocator/stack_allocator.c:30-32 | the range check accepts exactly offsets strictly between -entry_size and (num_entries + 1) * entry_size |
| StackAllocator.OwnsIsStricter | src/allocator/stack_allocator.c:40-43 | owned pointers pass the check; the first byte behind the region passes without being owned |
| StackAllocator.AllocMeetsRequest | src/allocator/stack_allocator.c:17-23 | a request is met exactly if an entry is free and large enough; the block is owned, large enough, and its entry was the top of the stack |
| StackAllocator.IdRecovered | src/allocator/stack_allocator.c:21-30 | every block that can be handed out is owned, and division recovers its id |
| StackAllocator.DeallocGoodIff | src/allocator/stack_allocator.c:28-33 | a deallocation that passes leaves a good stack exactly if the pointer is below the end of the region and its entry is not free already |
| StackAllocator.RunsAreSafe | src/allocator/stack_allocator.c:17-43 | for every run of a client that returns only outstanding blocks: no error, live blocks disjoint and inside the region, free ids distinct and within the stack |
| StackAllocator.NewRunsAreSafe | src/allocator/stack_allocator.c:45-69 | the same from the state that stack_allocator_new builds |
| StackAllocator.ReuseIsLifo | src/allocator/stack_allocator.c:21-33 | blocks given back in order come out in the opposite order and the stack is restored |
| StackAllocator.Allocator.constructor | src/allocator/stack_allocator.c:45-69 | region and identity stack; entry size 0 means 2048 |
| StackAllocator.Allocator.Allocate | src/allocator/stack_allocator.c:17-23 | allocation in place agrees with the operation on values |
| StackAllocator.Allocator.Deallocate | src/allocator/stack_allocator.c:25-33 | deallocation in place agrees with the operation on values, both errors included |
| Tower.BuildDestroy | src/allocator/stack_allocator.c:75-80 | destroying a level just built restores the tower exactly if its size equals the parent's entry size, and is an error otherwise |
| Tower.BuildAllDestroyAll | src/allocator/stack_allocator.c:45-80 | the same for any number of levels built and destroyed in the opposite order |
| Tower.SmallerLevelDies | src/allocator/stack_allocator.c:28-29 | a level smaller than its parent's entry builds and cannot be destroyed |
| Fallback.TreeAllocIsListAlloc | src/allocator/fallback_allocator.c:10-16 | allocation in a tree is: the first leaf that gives a block answers |
| Fallback.TreeOwnsIff | src/allocator/fallback_allocator.c:26-29 | a tree owns a block exactly if some leaf does |
| Fallback.TreeDeallocReaches | src/allocator/fallback_allocator.c:18-24 | deallocation reaches the first leaf that owns the block, or else the last leaf, and changes only that leaf |
| Fallback.RoutesHomeIff | src/allocator/fallback_allocator.c:18-29 | with separate stack regions, every issuable block goes back to its issuer exactly if no claims-everything leaf stands before a leaf that hands out blocks |
| Fallback.RunsReturnHome | src/allocator/fallback_allocator.c:10-29 | for trees in which no leaf that is ever asked hands out blocks behind a malloc leaf, every run: no error but the DMA allocator's own exit, every block back to its issuer, free and live entries of every stack leaf a partition |
| Fallback.Strays | src/allocator/fallback_allocator.c:10-24 | a run against the other trees: malloc returns NULL, the stacks in front are used up, a leaf behind answers a request for one byte, and its block is then freed by malloc |
| Fallback.AnswerOf | src/allocator/fallback_allocator.c:10-16 | the leaf that answers is the only one that changes, and no DMA leaf stands before it, because a DMA leaf never returns NULL |
| Fallback.NewRunsReturnHomeIff | src/allocator/fallback_allocator.c:10-29 | over a newly built tree with separate stack regions, every run is without error, other than the DMA allocator's own exit, and returns every block to its issuer exactly if no leaf that is ever asked hands out blocks behind a malloc leaf |
| DmaAllocator.RoundUpIsLeastMultiple | src/allocator/dma_allocator.c:79-83 | the rounded size is the least multiple of 2 MB not below the request exactly if that fits 64 bits |
| DmaAllocator.PageCoversBytes | src/allocator/dma_allocator.c:42-43 | a page that starts in place is in place byte for byte |
| DmaAllocator.IsPhysContinuous | src/allocator/dma_allocator.c:46-69 | true exactly if aligned, at least a page, all mapped and every byte in place; and when exactly it aborts |
| DmaAllocator.Allocate | src/allocator/dma_allocator.c:78-109 | a block is returned exactly if it is contiguous, with the rounded size |

## Left out

- Device reset, link setup and register configuration: straight-line register writes whose effect is the hardware's.
- Several queues per device: one receive and one transmit queue, as both applications use.
- The C++ driver: its ring steps repeat the C ones.
- Weak memory ordering and compiler barriers: memory is sequentially consistent here.
- Fairness of the spinlock and liveness of the transmit retry: the code gives none; `TxQueue.Queue.TxPacket` states when a call succeeds.
- mmap, hugetlbfs, pagemap and sysfs access, seccomp, statistics and logging: addresses and page maps are parameters, error() is a final state or a result.
- `spinlock_stack_allocator_free` and `rte_spinlock_trylock` on the plain lock: the one runs after all use, the other is not called by the allocator.
- The NULL written into a returned block in debug builds, and `fallback_allocator_new`'s alignment: they affect no modelled operation.
- Fallback.RunsReturnHome: malloc, free and munmap are addresses outside the stack regions and nothing more; their own bookkeeping is not modelled, and a run ends where the DMA allocator exits.
- SpinlockStack.Linearizable: threads are values of a state machine rather than objects with methods, because their steps interleave; clients return only outstanding blocks, as a wild pointer would be undefined behaviour in C.
- RecursiveLock.MutualExclusion: nesting stays below 2^31 - 1, where the C counter would overflow.
- Fallback.TreeAllocIsListAlloc: trees are values; allocators shared between two places of a tree are not modelled.
- RxQueue.Queue.Nic: packets fit in their buffer; `RxSystem` has the ones that do not.
- RxQueue.Queue.RxPacket: packets fit in their buffer.
- ForwarderLoop.SendOrLose: the receive NIC acts during receive calls, not during transmit calls; `Forwarder` interleaves both NICs everywhere.
- ForwarderLoop.Round: the same.
- ForwarderLoop.Forward: the same.
- ForwarderSharing.SharedIff: for the two offsets 0 and 64 and packets that fit; other offsets occur in neither start.
- TxRing.DriverKeeps: the size field of the buffer is read once per call; nothing writes it while the call is in progress.
