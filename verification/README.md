# Nanami: verified models of Alpha and of its image builders

Nanami is an operating system in which one process, Alpha, hands out memory, capabilities and services to
all others. This project models the parts of Alpha and of the image tools that decide something by
themselves, and proves what they promise for all inputs, all runs and all patterns of failing kernel calls.

| files | what they model |
|---|---|
| `Numbers`, `Options`, `Dyadic`, `FreeLists`, `BuddyPool`, `AllocationRecords`, `AlignedWindows`, `PhysicalAllocator` | the physical page allocator: coalescing free lists as the canonical maximal decomposition of the free set, exact carving, lowest aligned window, allocation records |
| `AvlTree`, `StaticAvlTree` | the AVL tree on the heap and the one in a fixed array with its free list; both refine a map |
| `HashIndex`, `PhysicalAllocations` | the open-addressed index with backward-shift deletion, and the reference-counted allocation table above it |
| `Capabilities`, `KernelEffects`, `Bindings`, `SessionBuffers`, `SessionEvents`, `HandoverSafety`, `HandoverRequests`, `Handover` | the handover of a Service between Providers: tables, buffers and events, and the request handlers composed over fallible effects |
| `Splitting`, `Untyped`, `PhysicalSources` | splitting untyped memory in step with the kernel's watermark, the capability directory and its node pool, delegation |
| `SharedMemory` | free ranges under two indexes, and the reservations of shared memory |
| `MemoryCopy` | copying between processes in page chunks through a window of sixteen mapped pages |
| `Bytes`, `Ext2Files`, `Ext2Disk`, `Ext2Image`, `Ext2Directory`, `Ext2Tree` | the ext2 image builder: tree of names, directories, block and inode allocation, superblocks and descriptors, and what a reader of the image finds |
| `Newc` | the newc archive writer and reader |

Main results:

- The buddy free lists are exactly the maximal aligned blocks of the free set after every operation; the
  searches miss nothing, and freeing undoes allocating at every order.
- In every run of handover requests and under every pattern of failed effects, one process at most holds a
  Service's receiver, event and Provider-side mappings; no mapping is unrecorded; a name never changes its
  Provider; a fault is never left. A request has an effect only on the authority it needs and only on the
  Service it is about; a Service that no request is about stays as it is through the whole run.
- Splitting untyped memory loses no address, lands every piece without padding and never runs out of nodes
  after its capacity check.
- An ext2 image is built exactly when it fits, and looking up any path in the bytes of the image gives the
  answer the builder's tree gives; no two files share a block, and link counts, free counts and directory
  counts are the true numbers.
- Copying in chunks is a simultaneous move, with the exact exception stated and shown.

How kernel calls are modelled: an effect that answers Ok took place, a Fatal or uncertain answer means it may
have, any other error means it did not. The effects choose their answers freely; what really is mapped or held
is kept beside the model and never read by it. A count of failed effects lets contracts say that a valid
request fails only when some effect failed.

Two properties hold only under a condition, and the condition is exact:

- Free pages of shared memory stay disjoint from active reservations exactly when a request does not grow the
  heap over a free page (`SharedMemory.PagesStayApart`, with the run in `SharedMemory.HeapGrowsOverFreePage`). A page gets
  free above the end of the heap by a reservation at a fixed address that is given back; the growing heap does
  not take such pages out of the free set. Slots are always disjoint.
- The copy compares process numbers, not the owners of address spaces, to choose its direction. Two processes
  that share an address space and copy upward into an overlapping range get a move exactly when one chunk
  covers it, or the bytes happen to agree (`MemoryCopies.UpwardIsMove`, `MemoryCopies.Clobbered`, and the run in
  `MemoryCopies.CopyLosesByte`).

## Model

| member | source | states |
|---|---|---|
| `FreeLists.BlocksAreMaximal` | nanami/src/nanami_core/physical_allocator.rs:66-95 | for any canonical lists, a block is listed exactly when it is a maximal aligned power-of-two block of the free set (both directions) |
| `FreeLists.Canonicity` | nanami/src/nanami_core/physical_allocator.rs:66-95 | two canonical pools with the same free pages list the same blocks at every order |
| `FreeLists.InsideOneBlock` | nanami/src/nanami_core/physical_allocator.rs:178-190 | every wholly free aligned block lies inside one listed block of at least its order; this is why the searches miss nothing |
| `FreeLists.PageCountIsSize` | nanami/src/nanami_core/physical_allocator.rs:230-239 | the count added up list by list is the number of free pages |
| `BuddyPools.LargestAlignedOrder` | nanami/src/nanami_core/physical_allocator.rs:490-502 | returns the greatest order whose block is aligned at the base and fits the count; none exactly for zero pages |
| `BuddyPools.BuddyPool.AddBlock` | nanami/src/nanami_core/physical_allocator.rs:66-95 | adds exactly the pages of the block, coalescing with free buddies, and leaves the lists canonical |
| `BuddyPools.BuddyPool.AddRange` | nanami/src/nanami_core/physical_allocator.rs:45-64 | adds exactly the pages of an arbitrary range and leaves the lists canonical |
| `BuddyPools.BuddyPool.FindContainingBlock` | nanami/src/nanami_core/physical_allocator.rs:192-208 | finds the one listed block that holds a page; none exactly when the page is not free |
| `BuddyPools.BuddyPool.ContainsRange` | nanami/src/nanami_core/physical_allocator.rs:115-137 | true exactly when every page of a non-empty, non-overflowing range is free |
| `BuddyPools.BuddyPool.CarveRange` | nanami/src/nanami_core/physical_allocator.rs:139-176 | takes exactly a wholly free range off the free set, never failing midway, and leaves the lists canonical |
| `BuddyPools.BuddyPool.AllocateRange` | nanami/src/nanami_core/physical_allocator.rs:97-113 | succeeds exactly when the range is non-empty and wholly free; a failure changes nothing |
| `BuddyPools.BuddyPool.FindFirstFit` | nanami/src/nanami_core/physical_allocator.rs:178-190 | returns a wholly free aligned window of the rounded-up power of two; none exactly when no such window is free |
| `BuddyPools.BuddyPool.FreePageCount` | nanami/src/nanami_core/physical_allocator.rs:230-239 | the saturating sum is the number of free pages: it never saturates |
| `PhysicalMemory.PhysicalAllocator.AddRegion` | nanami/src/nanami_core/physical_allocator.rs:257-284 | a new region becomes free pages or a reserved record; nothing is free and recorded at once |
| `PhysicalMemory.PagesHoldBytes` | nanami/src/nanami_core/physical_allocator.rs:460-462 | the fewest whole pages that hold a number of bytes; none when the addition wraps |
| `PhysicalMemory.PhysicalAllocator.AllocateAt` | nanami/src/nanami_core/physical_allocator.rs:286-320 | moves exactly the requested pages from one pool into one record, ordinary memory first; each error exactly under its condition; a failure changes nothing |
| `PhysicalMemory.PhysicalAllocator.AllocateAny` | nanami/src/nanami_core/physical_allocator.rs:322-336 | succeeds exactly when an aligned window of the rounded-up power of two of ordinary pages is free |
| `PhysicalMemory.PhysicalAllocator.AllocateAlignedInRange` | nanami/src/nanami_core/physical_allocator.rs:338-378 | takes the lowest aligned wholly free window of the extent; OutOfMemory only when no window exists |
| `AlignedWindows.LowestWindow` | nanami/src/nanami_core/physical_allocator.rs:349-376 | looking only at large enough listed blocks finds the lowest of all windows of the free set |
| `PhysicalMemory.PhysicalAllocator.Free` | nanami/src/nanami_core/physical_allocator.rs:380-426 | succeeds exactly when one unreserved record covers the pages; returns exactly those pages, keeps the rest of the record, never frees reserved pages |
| `PhysicalMemory.PhysicalAllocator.AllocateThenFree` | nanami/src/nanami_core/physical_allocator.rs:286-426 | freeing what was just allocated restores the block set of every order in both pools |
| `PhysicalMemory.PhysicalAllocator.MemoryReport` | nanami/src/nanami_core/physical_allocator.rs:428-440 | free and total are the true page counts; no sum saturates |
| `AllocationRecords.PagesInIsSize` | nanami/src/nanami_core/physical_allocator.rs:431-435 | the sum over the records is the number of recorded ordinary pages, because no page is in two records |
| `AvlTree.InsertCorrect` | nanami/src/nanami_utils/avl.rs:81-97 | on any AVL tree insertion is map update and keeps order, heights and balance |
| `AvlTree.RemoveCorrect` | nanami/src/nanami_utils/avl.rs:99-136 | on any AVL tree removal is map removal, reports the removed value, and keeps order, heights and balance |
| `AvlTree.TakeMinCorrect` | nanami/src/nanami_utils/avl.rs:138-149 | splits off the least key and leaves an AVL tree of the others |
| `AvlTree.RebalanceKeepsContents` | nanami/src/nanami_utils/avl.rs:169-215 | rotations and rebalancing do not change the map |
| `AvlTree.RebalanceBalances` | nanami/src/nanami_utils/avl.rs:197-215 | one rebalancing step restores a tree whose sides differ by at most two |
| `AvlTree.Find` | nanami/src/nanami_utils/avl.rs:37-49 | the search loop returns exactly what the map holds |
| `AvlTree.VisitRangeCorrect` | nanami/src/nanami_utils/avl.rs:57-78 | visits exactly the entries of the half-open key range, in ascending order, once each |
| `AvlTree.HeightBound` | nanami/src/nanami_utils/avl.rs:155-163 | a balanced tree of height h holds at least 2^(h/2) - 1 entries |
| `AvlTree.HeightFits` | nanami/src/nanami_utils/avl.rs:155-163 | so the height of any tree of fewer than 2^64 entries stays below 130 and its 16-bit field never overflows |
| `StaticAvlTree.StaticAvl.constructor` | nanami/src/nanami_utils/static_avl.rs:29-36 | an empty map over n slots |
| `StaticAvlTree.StaticAvl.Insert` | nanami/src/nanami_utils/static_avl.rs:38-42 | refines map update; fails, changing nothing, exactly when the key is absent and all slots are live |
| `StaticAvlTree.StaticAvl.Remove` | nanami/src/nanami_utils/static_avl.rs:59-63 | refines map removal and returns the removed value |
| `StaticAvlTree.StaticAvl.Find` | nanami/src/nanami_utils/static_avl.rs:44-57 | returns exactly what the map holds |
| `StaticAvlTree.StaticAvl.InsertAt` | nanami/src/nanami_utils/static_avl.rs:65-84 | the in-place insertion yields the same tree as the heap version, and nodes of other trees are untouched |
| `StaticAvlTree.StaticAvl.RemoveAt` | nanami/src/nanami_utils/static_avl.rs:86-132 | the in-place removal yields the same tree as the heap version and gives the node back to the free list |
| `StaticAvlTree.StaticAvl.TakeMin` | nanami/src/nanami_utils/static_avl.rs:134-143 | unlinks the least node in place; its slot is the only one that leaves the tree |
| `StaticAvlTree.StaticAvl.AllocateNode` | nanami/src/nanami_utils/static_avl.rs:145-164 | takes a free-list or never-used slot; fails exactly when every slot is live |
| `StaticAvlTree.StaticAvl.ReleaseNode` | nanami/src/nanami_utils/static_avl.rs:166-174 | live, free-list and never-used slots partition the array afterwards too |
| `StaticAvlTree.StaticAvl.Balance` | nanami/src/nanami_utils/static_avl.rs:225-251 | the in-place rebalancing step computes the rebalanced tree |
| `StaticAvlTree.Fullness` | nanami/src/nanami_utils/static_avl.rs:145-164 | no slot is left exactly when as many keys are stored as there are slots |
| `HashIndex.Index.Locate` | nanami/src/nanami_core/process/physical_allocations.rs:156-169 | for every hash function the probe terminates and finds a key exactly when it is in the map |
| `HashIndex.Index.Insert` | nanami/src/nanami_core/process/physical_allocations.rs:173-193 | refines map update; growth rehashes every entry; load stays at most one half |
| `HashIndex.Index.Remove` | nanami/src/nanami_core/process/physical_allocations.rs:194-209 | refines map removal; backward shift leaves every key reachable from its home without crossing a hole |
| `HashIndex.Index.Grow` | nanami/src/nanami_core/process/physical_allocations.rs:178-185 | doubling keeps the map and leaves room for one more |
| `HashIndex.Index.ShiftBack` | nanami/src/nanami_core/process/physical_allocations.rs:198-207 | closes the hole of a deletion: the slots represent the same map and every key is reachable again |
| `AllocationTable.PhysicalAllocations.Insert` | nanami/src/nanami_core/process/physical_allocations.rs:20-37 | pushes on one process's list, reusing a spare node when there is one; every node is on exactly one list |
| `AllocationTable.PhysicalAllocations.Take` | nanami/src/nanami_core/process/physical_allocations.rs:65-89 | removes the first matching allocation; `last` is reported exactly when no live reference to the range remains |
| `AllocationTable.PhysicalAllocations.Find` | nanami/src/nanami_core/process/physical_allocations.rs:55-63 | the first matching allocation of the process |
| `AllocationTable.PhysicalAllocations.Count` | nanami/src/nanami_core/process/physical_allocations.rs:51-53 | the count is the number of live nodes of the range over all processes |
| `AllocationTable.PhysicalAllocations.RemovePid` | nanami/src/nanami_core/process/physical_allocations.rs:91-102 | drops every allocation of one process, reporting each and whether it was the last of its range |
| `AllocationTable.PushedMeaning` | nanami/src/nanami_core/process/physical_allocations.rs:20-37 | an insertion puts the allocation in front of one list, leaves the other lists alone and adds one reference |
| `AllocationTable.RemovedMeaning` | nanami/src/nanami_core/process/physical_allocations.rs:65-89 | a removal takes one element out of one list, leaves the others alone and drops one reference |
| `AllocationTable.ClearedMeaning` | nanami/src/nanami_core/process/physical_allocations.rs:91-102 | dropping a process empties its list only and drops exactly its references |
| `AllocationTable.SpareWhenNotAllLive` | nanami/src/nanami_core/process/physical_allocations.rs:28-35 | a spare node exists unless all nodes are live, so storage grows only when every node is live |
| `ServiceBindings.RoundTrips` | nanami/servers/uapi/src/service.rs:99-118 | decode after encode gives a state back exactly when its generation fits into 61 bits |
| `ServiceBindings.Bindings.StateIsReadable` | nanami/servers/uapi/src/service.rs:99-118 | every reachable binding state round-trips through its encoded word |
| `ServiceBindings.SlotsPacked` | nanami/servers/uapi/src/service.rs:39-59 | the packed slots of the event profile come back exactly when each is in range and all differ |
| `ServiceBindings.SlotsPlain` | nanami/servers/uapi/src/service.rs:39-59 | the other two profiles take the receiver as it is and have no event; there are no further profiles |
| `ServiceBindings.Bindings.Register` | nanami/src/nanami_core/communication/bindings.rs:153-197 | succeeds exactly for valid slots and either the same registration again or a new owner with room in the table; one live Provider per owner |
| `ServiceBindings.Bindings.Publish` | nanami/src/nanami_core/communication/bindings.rs:199-228 | succeeds exactly for a free live Provider and a successful installation; generation 1 names that Provider |
| `ServiceBindings.Bindings.Import` | nanami/src/nanami_core/communication/bindings.rs:230-249 | succeeds exactly for a valid limit and a free identifier; an imported Service has no Provider and no manager |
| `ServiceBindings.Bindings.Prepare` | nanami/src/nanami_core/communication/bindings.rs:267-290 | reserves a second Provider with the same interface and profile; otherwise changes nothing |
| `ServiceBindings.Bindings.Quiesce` | nanami/src/nanami_core/communication/bindings.rs:292-306 | Prepared becomes Quiescing exactly when the caller owns the binding and the signal was sent |
| `ServiceBindings.Bindings.Acknowledge` | nanami/src/nanami_core/communication/bindings.rs:326-350 | Quiescing becomes Quiesced, or Faulted when the withdrawal is uncertain |
| `ServiceBindings.Bindings.Commit` | nanami/src/nanami_core/communication/bindings.rs:365-397 | the pending Provider becomes the bound one under the next generation; a Fatal installation faults the binding; any other failure changes nothing |
| `ServiceBindings.Bindings.Abort` | nanami/src/nanami_core/communication/bindings.rs:399-428 | the Service stays with its Provider and generation, and the pending Provider is released |
| `ServiceBindings.Bindings.Connect` | nanami/src/nanami_core/communication/bindings.rs:456-496 | opens a session exactly when the Service is not faulted, its limit and the table leave room and the handle was installed; an uncertain installation faults the Service and keeps the slot |
| `ServiceBindings.Bindings.Close` | nanami/src/nanami_core/communication/bindings.rs:498-519 | succeeds exactly for the owner of a session that is closed already or whose handle was withdrawn; nothing else changes |
| `ServiceBindings.Bindings.Retire` | nanami/src/nanami_core/communication/bindings.rs:521-537 | a Provider that is bound or pending is never retired |
| `ServiceBindings.Bindings.Fault` | nanami/src/nanami_core/communication/bindings.rs:352-356 | faults one binding; a faulted binding is never left |
| `ServiceBindings.Bindings.AttachmentIsExact` | nanami/src/nanami_core/communication/bindings.rs:251-428 | a Provider's service field is set exactly when it is that Service's current or pending Provider |
| `ServiceBindings.SettleKeeps` | nanami/src/nanami_core/communication/bindings.rs:365-428 | committing or aborting keeps the tables sound and gives no name to a second Provider |
| `SessionBuffers.MapPages` | nanami/src/nanami_core/communication/buffers.rs:62-84 | `installed` counts every page that may be mapped, through each kind of failure; every page is mapped at an address reserved for the process |
| `SessionBuffers.UnmapPages` | nanami/src/nanami_core/communication/buffers.rs:86-101 | pages are withdrawn from the top; a failure leaves the rest recorded |
| `SessionBuffers.Buffers.Withdraw` | nanami/src/nanami_core/communication/buffers.rs:225-244 | the Provider's view of every buffer of the Service is gone, or the failure is reported; the owner mismatch is reached only with a foreign owner |
| `SessionBuffers.Buffers.Install` | nanami/src/nanami_core/communication/buffers.rs:248-320 | success maps every open buffer for the owner and grants the receiver; a failure that is not Fatal restores buffers, mappings and receivers |
| `SessionBuffers.Buffers.StageAll` | nanami/src/nanami_core/communication/buffers.rs:255-287 | candidate views are recorded page by page; no mapping is untracked |
| `SessionBuffers.Buffers.RollBack` | nanami/src/nanami_core/communication/buffers.rs:288-308 | removes every candidate view, going on past failures; clean means the mapped set is as before |
| `SessionBuffers.Buffers.Create` | nanami/src/nanami_core/communication/buffers.rs:136-208 | a session gets pages that were free before and have all been zeroed, mapped for client and Provider; a request that may have its buffer fails only with a failed effect, and what a failure left mapped is recorded |
| `SessionBuffers.Buffers.Close` | nanami/src/nanami_core/communication/buffers.rs:323-339 | unmaps the client of a buffer that no Provider sees; what a failed unmapping leaves stays recorded |
| `SessionBuffers.Buffers.ViewFor` | nanami/src/nanami_core/communication/buffers.rs:210-223 | the view is given exactly to the recorded Provider of an open buffer whose pages it has all installed; each of them is mapped there |
| `SessionBuffers.Buffers.HasMapping` | nanami/src/nanami_core/communication/buffers.rs:126-134 | true exactly when some buffer records pages for the owner; when false, the owner has no page of a buffer mapped |
| `SessionBuffers.EntryReplaced` | nanami/src/nanami_core/communication/buffers.rs:136-339 | changing one entry together with its own pages keeps every mapping tracked |
| `SessionEvents.Events.Install` | nanami/src/nanami_core/communication/events.rs:96-125 | grants the event once; an uncertain grant latches the fault |
| `SessionEvents.Events.Withdraw` | nanami/src/nanami_core/communication/events.rs:127-149 | takes the event back from its receiver; a foreign owner is refused without any effect |
| `SessionEvents.Events.Connect` | nanami/src/nanami_core/communication/events.rs:151-193 | connects a session once; a valid request fails only with a failed effect, and an uncertain one latches the fault |
| `SessionEvents.Events.Close` | nanami/src/nanami_core/communication/events.rs:195-217 | success leaves no open connection of the session; only a failed effect or a connection in doubt prevents it |
| `Handover.Alpha.HandleQuiesced` | nanami/src/nanami_core/alpha/service_requests.rs:381-421 | exactly the bound Provider that is asked to stop succeeds, unless an effect fails; event, buffers and receiver are taken back in this order; any other caller changes nothing; no other Service is touched |
| `Handover.Alpha.HandleCommit` | nanami/src/nanami_core/alpha/service_requests.rs:422-455 | only the administrator that manages the quiesced Service, naming its generation, changes anything; then the pending Provider holds everything under the next generation, or a failure that is not Fatal changes nothing; it fails only with a failed effect or when the pending Provider is itself a client of one of the buffers; no other Service is touched |
| `Handover.Alpha.HandleAbort` | nanami/src/nanami_core/alpha/service_requests.rs:422-455 | only the administrator that manages the prepared or quiesced Service, naming its generation, changes anything; then the old Provider holds everything again under the same generation; it fails only with a failed effect, and if that is not Fatal changes nothing; no other Service is touched |
| `HandoverSafety.QuiescedTakes` | nanami/src/nanami_core/communication/buffers.rs:248-320 | a quiesced Service can be given to any Provider that is no client of one of its buffers: the refusals inside an installation are never met |
| `HandoverSafety.BoundIsNoClient` | nanami/src/nanami_core/communication/buffers.rs:248-320 | the Provider a quiesced Service is bound to is no client of its buffers; this is why a valid abort needs no further condition |
| `Handover.Alpha.HandlePublish` | nanami/src/nanami_core/alpha/service_requests.rs:164-227 | only an administrator changes anything: it becomes the manager of a new Service bound to a live Provider without one; fails, this given, only with a failed effect; an identifier whose cleanup is uncertain is poisoned and never used again; no earlier Service is touched |
| `Handover.Alpha.HandleClose` | nanami/src/nanami_core/alpha/service_requests.rs:456-511 | only the session's owner changes anything, and while the buffer is open only in Quiesced; connection, buffer and session are closed in this order, nothing of any other session; fails only with a failed effect unless the Service is faulted or the connection in doubt |
| `Handover.Alpha.CloseInOrder` | nanami/src/nanami_core/alpha/service_requests.rs:456-511 | the connection goes first, then the buffer, then the session; a failure stops there and leaves the rest as it was |
| `Handover.Alpha.HandleRegister` | nanami/src/nanami_core/alpha/service_requests.rs:88-162 | registers a Provider with the slots its profile packs; a process is registered once, again only with the same parameters; fails otherwise only with a failed effect; nothing else changes |
| `Handover.Alpha.HandleConnect` | nanami/src/nanami_core/alpha/service_requests.rs:229-294 | opens a session exactly when the Service permits it and no effect fails; only a Fatal effect faults the Service; no other Service is touched |
| `Handover.Alpha.HandlePrepare` | nanami/src/nanami_core/alpha/service_requests.rs:331-340 | succeeds exactly for the administrator that manages the active Service and names its generation, and for a live unattached Provider of the same interface and profile; otherwise changes nothing |
| `Handover.Alpha.HandleQuiesce` | nanami/src/nanami_core/alpha/service_requests.rs:341-380 | enters Quiescing for the administrator and owning manager of a prepared Service that names the wake slot bound before, or a slot in range if none was; fails only with a failed effect then; a bound wake slot never changes |
| `Handover.Alpha.HandleRetire` | nanami/src/nanami_core/alpha/service_requests.rs:512-519 | retires a Provider that is neither bound nor pending; fails only with a failed effect then |
| `Handover.Alpha.HandleBufferCreate` | nanami/src/nanami_core/alpha/service_buffers.rs:157-210 | a buffer is given only to the owner of an open session of a managed Service that is active or prepared and whose Provider is another process; such a request fails only with a failed effect, and the view has the size asked for, rounded up to pages |
| `Handover.Alpha.HandleBufferView` | nanami/src/nanami_core/alpha/service_buffers.rs:157-210 | answers exactly the bound Provider of an open session with an open buffer, in a phase that permits it, and while quiescing only if the pages are still installed; every page of the answer is mapped there |
| `Handover.Alpha.HandleEventConnect` | nanami/src/nanami_core/alpha/service_events.rs:209-256 | connects a session of the caller to the event of its active or prepared Service, once; fails only with a failed effect when this is allowed |
| `Handover.Alpha.InstallBuffered` | nanami/src/nanami_core/alpha/service_buffers.rs:219-232 | event first, then buffers and receiver; a failure that is not Fatal leaves nothing behind |
| `Handover.Alpha.Step` | nanami/src/nanami_core/alpha/service_requests.rs:296-522 | every request does what its answer says, on the authority it needs, to the Service it is about and to no other; it keeps the protocol safe and never undoes a name, a fault or a buffer's backing; an answer that is no refusal means that no effect failed |
| `Handover.Alpha.Run` | nanami/src/nanami_core/alpha/service_requests.rs:296-522 | over every finite sequence of requests and every pattern of failures: every state on the way is safe and every answer is true; a Service that no request is about keeps its binding, holder, event, sessions, buffers and mappings |
| `HandoverRequests.Spared` | nanami/src/nanami_core/alpha/service_requests.rs:296-522 | a Service that a request was not about at the start of a run is not touched by it later either: sessions and attachments of a Service cannot be acquired without it |
| `HandoverSafety.OneServiceKeepsSafe` | nanami/src/nanami_core/alpha/service_requests.rs:296-522 | a step that changes one Service with its buffers, its event and what is held of it keeps the protocol safe and every other Service as it was |
| `Handover.Alpha.Exclusive` | nanami/src/nanami_core/alpha/service_requests.rs:381-455 | at most one process holds a Service's receiver and event: exactly the bound one in Active, Prepared and Quiescing, nobody in Quiesced |
| `Handover.Alpha.ExclusiveView` | nanami/src/nanami_core/alpha/service_requests.rs:381-455 | apart from the client only the holder has pages of the Service's buffers mapped: all of them in Active and Prepared, none in Quiesced |
| `Handover.Alpha.EveryMappingIsRecorded` | nanami/src/nanami_core/communication/buffers.rs:62-101 | no page is mapped that no buffer records |
| `Handover.Alpha.EveryMappingIsReserved` | nanami/src/nanami_core/communication/buffers.rs:62-84 | no page is mapped at an address that was not reserved for the process |
| `HandoverSafety.SeenByHolder` | nanami/src/nanami_core/communication/buffers.rs:210-320 | who can have a page of a buffer mapped, phase by phase |
| `HandoverSafety.TablesKeepSafe` | nanami/src/nanami_core/alpha/service_requests.rs:331-380 | steps that only change the tables keep the protocol safe |
| `HandoverSafety.BuffersWithdrawn` | nanami/src/nanami_core/communication/buffers.rs:225-244 | withdrawing the Provider's views keeps the protocol safe, also when it stops halfway, and touches no other Service |
| `HandoverSafety.ReceiverRevoked` | nanami/src/nanami_core/communication/bindings.rs:326-350 | taking the receiver back keeps the protocol safe, also when the answer is uncertain, and touches no other Service |
| `HandoverSafety.Concluded` | nanami/src/nanami_core/alpha/service_requests.rs:422-455 | each of the three outcomes of an installation keeps the protocol safe and touches no other Service |
| `HandoverSafety.CloseStep` | nanami/src/nanami_core/communication/buffers.rs:323-339 | whatever closing a buffer answers, the protocol stays safe, no buffer moves and no other Service is touched |
| `HandoverSafety.PublishFailed` | nanami/src/nanami_core/alpha/service_requests.rs:164-227 | a refused publication leaves nothing held unless its identifier is poisoned |
| `Splitting.PrefixBound` | nanami/src/nanami_core/memory/sources.rs:180-186 | between two page-aligned addresses the greedy loop takes at most 2*(64-12) prefixes |
| `Splitting.PrefixFits` | nanami/src/nanami_core/memory/sources.rs:180-186 | the prefix of an aligned non-empty interval exists and does not reach beyond its end |
| `Splitting.PrefixAligned` | nanami/src/nanami_core/memory/sources.rs:180-186 | the interval starts on a multiple of its prefix |
| `Splitting.Descending` | nanami/src/nanami_core/memory/sources.rs:82-110 | once the remaining length decides, the prefixes strictly fall in order |
| `Splitting.Rising` | nanami/src/nanami_core/memory/sources.rs:82-110 | before that the prefixes strictly rise in order |
| `UntypedMemory.LandsExactly` | nanami/src/nanami_core/memory.rs:879-895 | an aligned watermark leaves no padding: the object lands at the watermark |
| `UntypedMemory.Kernel.Convert` | nanami/src/nanami_core/memory.rs:869-895 | align up, then advance; refused when the object does not fit |
| `CapabilityDirectories.NodePool.Create` | nanami/src/nanami_core/memory/directory.rs:91-132 | the software's count follows the kernel's watermark exactly, padding included |
| `CapabilityDirectories.PendingIsSmall` | nanami/src/nanami_core/memory/directory.rs:43-71 | 256 consecutive slots need at most two new nodes of each level |
| `CapabilityDirectories.ReserveSuffices` | nanami/src/nanami_core/memory/directory.rs:10-14 | the reserve holds all nodes that 256 slots need, alignment padding included |
| `CapabilityDirectories.CapabilityDirectory.Allocate` | nanami/src/nanami_core/memory/directory.rs:43-71 | hands out consecutive slots; with room for them the pool is never the reason for a failure |
| `PhysicalMemorySources.PhysicalSources.SourceRange` | nanami/src/nanami_core/memory/sources.rs:46-55 | finds the one source that holds an address; none exactly when the address is not untyped |
| `PhysicalMemorySources.PhysicalSources.CutOff` | nanami/src/nanami_core/memory/sources.rs:82-121 | a prefix or block lands exactly at the start of its source; a failure at any point loses nothing |
| `PhysicalMemorySources.PhysicalSources.TakeSlot` | nanami/src/nanami_core/memory/sources.rs:68-121 | takes exactly the requested block; sources and taken blocks always partition the original extent, also when a conversion fails midway; at most 105 slots are used |
| `PhysicalMemorySources.PhysicalSources.EnsureCapacity` | nanami/src/nanami_core/memory/sources.rs:123-178 | after success there is room for the nodes of 256 slots |
| `PhysicalMemorySources.PhysicalSources.TakeAndSplit` | nanami/src/nanami_core/memory/delegation.rs:92-114 | after a successful capacity check a valid request never fails for want of pool space; whatever fails, either nothing was taken, or the slot that holds exactly the block is returned with the parts made so far |
| `PhysicalMemorySources.PhysicalSources.SplitAuthority` | nanami/src/nanami_core/memory/delegation.rs:92-114 | the parts have radix 28, 28, 29, ... and each lands right behind the previous one, also those made before a failure |
| `PhysicalMemorySources.PartsTile` | nanami/src/nanami_core/memory/delegation.rs:92-114 | every address of the delegated block is in exactly one part |
| `PhysicalMemorySources.Delegations.Reserve` | nanami/src/nanami_core/memory/delegation.rs:58-116 | once capacity and a block are there, the reservation is on record whatever fails: Reserved, with the authority over exactly the block and the parts made so far; success leaves a prepared delegation whose parts tile the block; no address leaves the sources unrecorded but for the node pool |
| `PhysicalMemorySources.Delegations.Take` | nanami/src/nanami_core/memory/delegation.rs:126-139 | the parts of a prepared delegation can be taken exactly once |
| `PhysicalMemorySources.CutCoverage` | nanami/src/nanami_core/memory/sources.rs:82-121 | cutting moves addresses between sources and taken blocks and loses none |
| `SharedMemory.Canonical` | nanami/src/nanami_core/process/shared_memory.rs:41-59 | there is only one separated way to cover a set: equal free sets have equal indexes |
| `SharedMemory.FreeRanges.Find` | nanami/src/nanami_core/process/shared_memory.rs:28-33 | the shortest range that is long enough, the lowest among equals; none exactly when all are too short |
| `SharedMemory.FreeRanges.Insert` | nanami/src/nanami_core/process/shared_memory.rs:41-59 | set union with a disjoint range; both indexes agree, ranges stay disjoint and non-adjacent |
| `SharedMemory.FreeRanges.Take` | nanami/src/nanami_core/process/shared_memory.rs:61-66 | set difference with the front of a range |
| `SharedMemory.FreeRanges.Exclude` | nanami/src/nanami_core/process/shared_memory.rs:68-84 | set difference with an arbitrary non-empty range; the loop terminates |
| `SharedMemory.PredecessorSuffices` | nanami/src/nanami_core/process/shared_memory.rs:136-145 | looking at the reservation with the highest base below the end decides whether any overlaps |
| `SharedMemory.SharedMemorySpace.ReserveAt` | nanami/src/nanami_core/process/shared_memory.rs:96-170 | succeeds exactly when the chosen slots and addresses are acceptable; active reservations never overlap in addresses or slots, free slots stay below the watermark and apart from active ones; a failure changes nothing |
| `SharedMemory.SharedMemorySpace.Recycle` | nanami/src/nanami_core/process/shared_memory.rs:189-199 | the slots are never free already; slots and pages join the free sets |
| `SharedMemory.SharedMemorySpace.ExcludeVirtual` | nanami/src/nanami_core/process/shared_memory.rs:201-211 | the pages leave the free set; reservations are untouched |
| `SharedMemory.GivenBack` | nanami/src/nanami_core/process/shared_memory.rs:61-66 | giving back what was taken restores the free ranges exactly |
| `SharedMemory.PagesStayApart` | nanami/src/nanami_core/process/shared_memory.rs:147-169 | free pages stay apart from active reservations if and only if the request does not grow the heap over a free page, which can be told before the call |
| `SharedMemory.HeapGrowsOverFreePage` | nanami/src/nanami_core/process/shared_memory.rs:96-170 | a run after which one page is both free and reserved: the heap grew over a page that was given back, and the reservation cannot be given back as required |
| `MemoryCopies.CopyWindow.MapFrame` | nanami/src/nanami_core/alpha/memory_copy.rs:33-70 | a ready entry names the frame mapped at its address; every mapped frame has an entry; a frame that is ready stays, another goes to the first slot that is not ready or to the one at the hand, past a pinned one; the pinned slot is never evicted |
| `MemoryCopies.CopyWindow.UnmapSlot` | nanami/src/nanami_core/alpha/memory_copy.rs:72-82 | an uncertain unmapping keeps its entry, not ready |
| `MemoryCopies.CopyWindow.Invalidate` | nanami/src/nanami_core/alpha/memory_copy.rs:86-97 | success leaves no entry and no mapping of the owner and all others as they were |
| `MemoryCopies.CopyWindow.CopyChunk` | nanami/src/nanami_core/alpha/memory_requests.rs:705-731 | copies one chunk through the window; the frames copied are those of the two pages |
| `MemoryCopies.CopyWindow.CopyProcessMemory` | nanami/src/nanami_core/alpha/memory_requests.rs:664-736 | succeeds exactly when both ranges are mapped, nothing overflows and no effect fails, or nothing is to be done; then it is a simultaneous move of the whole range for every overlap and alignment, unless two processes sharing an address space copy upward into an overlapping range; then it is a move exactly when copying chunk after chunk gives the same bytes, and always when one chunk covers the range; a failure changes only the destination |
| `MemoryCopies.OneMoreChunk` | nanami/src/nanami_core/alpha/memory_requests.rs:685-733 | a chunk next to those already copied, read before it is overwritten, extends the move |
| `MemoryCopies.UpwardIsMove` | nanami/src/nanami_core/alpha/memory_requests.rs:681-704 | in the excepted case the result is a move for all contents if and only if one chunk covers the range |
| `MemoryCopies.Clobbered` | nanami/src/nanami_core/alpha/memory_requests.rs:681-704 | otherwise there are contents for which it is not |
| `MemoryCopies.MovedAtOnce` | nanami/src/nanami_core/alpha/memory_requests.rs:681-704 | within one address space the copy is a move exactly when the bytes from the source on are those of moving all at once |
| `MemoryCopies.CopyLosesByte` | nanami/src/nanami_core/alpha/memory_requests.rs:664-736 | a run in which a page is copied one byte upward by two processes sharing an address space: it succeeds unless an effect fails, and a byte is lost |
| `Ext2Files.ReadsBack` | crates/ext2-image/src/lib.rs:565-583 | a reader of direct, single and double indirect blocks gets exactly the data that was laid out, for any size up to the limit |
| `Ext2Files.ReadFile` | crates/ext2-image/src/lib.rs:565-583 | the reader's loop computes the contents |
| `Ext2Files.ReachesOwned` | crates/ext2-image/src/lib.rs:417-440 | the data and pointer blocks a reader goes through are exactly those the file owns |
| `Ext2Disks.Disk.constructor` | crates/ext2-image/src/lib.rs:311-366 | the metadata of every group is marked as used and all else is free |
| `Ext2Disks.MetadataTight` | crates/ext2-image/src/lib.rs:333-344 | a block of a group is kept from files exactly when it holds the superblock or descriptors, a bitmap, or an inode |
| `Ext2Disks.LayoutTight` | crates/ext2-image/src/lib.rs:312-317 | the fewest groups that hold the blocks and the fewest descriptor blocks that hold the groups |
| `Ext2Disks.Disk.Alloc` | crates/ext2-image/src/lib.rs:389-408 | a block never handed out before and outside all metadata; fails exactly when none is free |
| `Ext2Disks.Disk.Store` | crates/ext2-image/src/lib.rs:417-440 | data and pointer blocks are in place; they are all different, as many as the size needs, and were not in use before; succeeds exactly when enough blocks are free |
| `Ext2Disks.SeparateWith` | crates/ext2-image/src/lib.rs:389-440 | a file in blocks not in use shares none with any earlier file |
| `Ext2Disks.Disk.PointerBlock` | crates/ext2-image/src/lib.rs:462-472 | a new block that lists the given numbers |
| `Ext2Disks.Disk.WriteNode` | crates/ext2-image/src/lib.rs:410-460 | the inode reads back, all earlier ones still do; succeeds exactly when the size is within the limit and enough blocks are free |
| `Ext2Disks.Disk.UseInode` | crates/ext2-image/src/lib.rs:369-387 | marks exactly the next inode and counts it as a directory in its group alone; fails exactly when there is none |
| `Ext2Disks.Allocation` | crates/ext2-image/src/lib.rs:389-408 | an allocation keeps every bitmap exact and every block of the used set distinct from metadata |
| `Ext2Disks.InodesApart` | crates/ext2-image/src/lib.rs:441-443 | two inodes never share a byte |
| `Ext2Disks.IntactKept` | crates/ext2-image/src/lib.rs:410-460 | writing into fresh blocks keeps every inode readable |
| `Ext2Images.Finish` | crates/ext2-image/src/lib.rs:474-540 | every group gets a superblock and the descriptor table, and nothing else changes |
| `Ext2Images.FreeBlocksAreZeros` | crates/ext2-image/src/lib.rs:474-481 | the counted free blocks are the zero bits of all block bitmaps |
| `Ext2Images.FreeInodesAreZeros` | crates/ext2-image/src/lib.rs:474-481 | the counted free inodes are the zero bits of all inode bitmaps |
| `Ext2Images.DescriptorReads` | crates/ext2-image/src/lib.rs:514-531 | a descriptor reads back as the group it describes: bitmaps, inode table, free blocks, free inodes and directories |
| `Ext2Images.SuperblockReads` | crates/ext2-image/src/lib.rs:486-511 | every field of the superblock reads back: counts, sizes, magic number, revision, features, group number, identifier and label |
| `Ext2Images.BooksOf` | crates/ext2-image/src/lib.rs:474-540 | in every group the superblock copy has the true totals and free counts of the image and all constant fields, the table is copied, and the descriptor has the true free blocks, free inodes and directories of the group |
| `Ext2Images.ReaderFindsInode` | crates/ext2-image/src/lib.rs:559-564 | a reader that asks the descriptor table finds every inode |
| `Ext2Images.Build` | crates/ext2-image/src/lib.rs:219-231 | an image is built if and only if layout, inodes, sizes and blocks suffice; then every entry reads back with mode, length, links and sectors, no two inodes share a block or use metadata, and all counts of blocks, inodes and directories are true in every group |
| `Ext2Directories.DirectoryData` | crates/ext2-image/src/lib.rs:238-288 | as many whole blocks as the name lengths alone determine; records tile them, none crosses a block boundary, and the linear walk gives the records back in order |
| `Ext2Directories.WalkReads` | crates/ext2-image/src/lib.rs:238-288 | the walk over tiled records finds exactly them |
| `Ext2Trees.ParseExact` | crates/ext2-image/src/lib.rs:169-183 | a path and its list of names determine each other, for names of 1 to 255 bytes that are not `.` or `..` and have neither NUL nor slash |
| `Ext2Trees.TargetExact` | crates/ext2-image/src/lib.rs:135-151 | a slash alone is the root, anything else a list of valid names |
| `Ext2Trees.ImageBuilder.AddDirectory` | crates/ext2-image/src/lib.rs:100-116 | succeeds exactly when the path is valid, new and in a directory whose link count can grow; otherwise nothing changes |
| `Ext2Trees.ImageBuilder.AddFile` | crates/ext2-image/src/lib.rs:118-133 | succeeds exactly when the size is within the limit and the path can be placed; otherwise nothing changes |
| `Ext2Trees.ImageBuilder.AddHardLink` | crates/ext2-image/src/lib.rs:135-151 | the new path leads to the target's node; only regular files; otherwise nothing changes |
| `Ext2Trees.ImageBuilder.AddSymlink` | crates/ext2-image/src/lib.rs:153-167 | stores the text verbatim; otherwise nothing changes |
| `Ext2Trees.ImageBuilder.Insert` | crates/ext2-image/src/lib.rs:195-217 | appends a node and its entry in the directory of its path |
| `Ext2Trees.AttachedKeeps` | crates/ext2-image/src/lib.rs:100-217 | every added name keeps the tree well-formed and every link count equal to the number of directory records that name the node |
| `Ext2Trees.LookupIsExact` | crates/ext2-image/src/lib.rs:219-231 | following names through the image leads where the path leads in the tree, and to nothing when the tree has no such path |
| `Ext2Trees.BuildTree` | crates/ext2-image/src/lib.rs:219-231 | succeeds if and only if the tree fits, told from sizes and name lengths alone; then every node, its mode and contents can be read back, looking up any path in the image gives exactly the tree's answer, `.` and `..` lead where they should, link counts are the numbers of records, no two nodes share a block, and all counts are true in every group |
| `Ext2Trees.DotsInImage` | crates/ext2-image/src/lib.rs:238-246 | in the image, `.` of every directory is the directory itself, and `..` is the directory its path without the last name leads to, for the root the root |
| `Ext2Trees.LinksInImage` | crates/ext2-image/src/lib.rs:100-217 | in the image, the link count of every inode is the number of records that carry its number, counted by walking all directories |
| `Ext2Trees.KindsInImage` | crates/ext2-image/src/lib.rs:238-288 | in the image, every record says directory, symbolic link or file exactly as the mode of the inode it names does |
| `Ext2Trees.BuildableTree` | crates/ext2-image/src/lib.rs:219-231 | what the builder writes for a tree can be written exactly when the tree fits |
| `NewcArchives.HexRoundTrip` | xtask/src/cpio.rs:36-38 | eight hexadecimal digits give a 32-bit number back |
| `NewcArchives.ParseHex` | nanami/src/nanami_core/cpio.rs:103-115 | the digits' value modulo 2^32; none exactly when a character is no digit |
| `NewcArchives.DigitExact` | nanami/src/nanami_core/cpio.rs:106-112 | digits, small letters and capital letters have their values, and nothing else has one |
| `NewcArchives.Archive` | xtask/src/cpio.rs:5-13 | fails exactly when a name has a zero or a size does not fit into 32 bits; the length is a multiple of 512 |
| `NewcArchives.HeaderWritten` | xtask/src/cpio.rs:20-38 | every field of every written header: the entry number, its mode, one link, the sizes of data and name, all others zero; the trailer has number and mode 0 |
| `NewcArchives.ReadsBack` | xtask/src/cpio.rs:14-45 | an appended entry is read back wherever it is in the archive: alignment and fixed-width fields agree on both sides |
| `NewcArchives.ArchiveReadsBack` | xtask/src/cpio.rs:5-45 | reading a written archive gives names and data in order, up to the first entry named like the trailer |
| `NewcArchives.AllVisible` | nanami/src/nanami_core/cpio.rs:83-85 | all entries are read back if and only if none is named like the trailer |
| `NewcArchives.ForEachEntry` | nanami/src/nanami_core/cpio.rs:46-96 | the visitor's loop sees exactly the records of a well-formed archive |
| `NewcArchives.RecordsExact` | nanami/src/nanami_core/cpio.rs:46-96 | for any bytes: there are records exactly when headers with a magic number, sizes, a name and aligned data follow each other up to a trailer, and they are those on this chain |
| `NewcArchives.ReadAtExact` | nanami/src/nanami_core/cpio.rs:53-94 | an entry is accepted exactly when magic number, hexadecimal sizes, name and data are where the format has them |
| `NewcArchives.FindImage` | nanami/src/nanami_core/cpio.rs:12-34 | finds a record exactly when the archive is well-formed and it is the only one that the request means |
| `NewcArchives.MatchesExactly` | nanami/src/nanami_core/cpio.rs:20-44 | in terms of concatenation: a request with a slash means the record with the same path, one without means a file of that name in any directory or none, with `./` or `/` in front and `.elf` behind left out of account on both sides, each once |

## Left out

- Machine words: page numbers stay below 2^52, addresses below 2^64; other counters are unbounded. Where the code checks an addition or lets it wrap or saturate, the model does.
- Bounded tables, vectors and tree maps of the standard library are sequences, sets and maps; the lookups the code makes in an ordered map (next below, next from) are methods with loops.
- The buddy of a block is written as the toggled multiple instead of an exclusive or; masks of powers of two are remainders.
- The hash functions of the allocation table: arbitrary functions.
- Physical ownership across the active and deferred allocation tables: each table is treated on its own.
- The process table: which process exists, who may administer services and who owns a process slot are parameters of the handlers; clean-up when a process exits is not modelled.
- What the kernel does to make a Notification for a wake slot is one effect; wake hints, notification bits, the name registry of services and logging.
- Imported Services are exempt from the receiver and mapping claims: their endpoints belong to another Alpha.
- One boot-time Generic per `PhysicalSources`; the block chosen for refilling the node pool and the block the page allocator reserves are parameters. That a refill can always be performed is not claimed.
- PhysicalMemory.PhysicalAllocator.AddRegion: requires boot regions that do not overlap earlier ones and end below page 2^52, as a memory map reports them; the code does not check it.
- Reclaiming delegated memory and the overlap test of delegations.
- MemoryCopies.CopyWindow.CopyProcessMemory: every mapped page is assumed to have a frame of its own, so frames shared between address spaces are not covered; pages that are materialized on first use count as mapped.
- SharedMemory.SharedMemorySpace.Recycle: requires that the pages are not free already, which the code asserts in debug builds; that slots are not is proved.
- Heap growth and fixed mappings outside shared memory appear only as `ExcludeVirtual`.
- The ext2 image is a sequence of 1 KiB blocks rather than one byte string; the label of the volume is a parameter; time stamps are not modelled, being zero.
- Ext2Images.Build: takes the contents of all inodes at once, in the order in which the builder writes them.
- Ext2 paths are byte strings; that the builder's strings are UTF-8 is not modelled. In the archive reader the UTF-8 test is a parameter.
- Entry numbers in an archive are taken modulo 2^32; the reader does not look at them.
- StaticAvlTree works on ghost shapes for its proofs; node storage is an array as in the source.
- ELF parsing, the heap allocator, manifests, container lifecycle, device, interrupt and frame buffer requests, boot code and build tools.
