# Svindows core, verified

This project models the self-contained mechanisms of the Svindows kernel and its user-mode
runtime in Dafny and proves what they promise: page tables that refine a flat map, a
dispatcher that loses no wakeup, a pool whose validator cannot fire, a loader that
initializes dependencies first, and the smaller protocols and computations around them.
`dafny verify dfyconfig.toml` checks everything.

| files | component |
|---|---|
| `Prelude` | what every module shares: `Option`, the page size, lists without repetition |
| `FrameAllocator` | bitmap frame allocator (`kernel/mm/pmm.c`) |
| `PageTables`, `AddressSpace` | four-level page tables: the radix tree on values, and the code that edits it (`kernel/mm/vmm.c`; Intel SDM Volume 3A, section 4.5) |
| `Dispatcher`, `WaitProtocol`, `DispatcherRuns`, `SignalAccounting`, `WaitOutcomes`, `Kernel` | waits, signals, scheduling and ticks as a state machine; its invariant; whole runs; where signals go; what waits return and when; the code that takes each step (`kernel/ke/dispatcher.c`, `kernel/ke/thread.c`) |
| `PoolBlocks`, `Pool`, `PoolClients`, `HeapPages`, `HeapGrowth` | the pool as a list of blocks, and as linked headers in memory; its clients; its growth on the frame allocator and the page tables, on values and as code (`kernel/ex/pool.c`) |
| `ObjectManager`, `ObjectTable`, `ObjectLedger`, `Orphans` | reference accounting and the namespace; runs and code; what each operation adds and takes; objects whose directory was deleted under them (`kernel/ob`) |
| `LoaderInit`, `Relocations`, `RelocationTable` | initialization order; base relocation, and its table byte by byte (`kernel/ldr/pe.c`; Microsoft PE Format, section "The .reloc Section (Image Only)") |
| `ThreadPool`, `ThreadPoolLedger`, `InitOnce`, `Calendar` | thread-pool queue and its runs counted from outside, one-time initialization, FILETIME and FAT dates (`user/kernel32.c`) |
| `Bresenham`, `Drawing` | the integer line walk, and pixels with clipping (`kernel/win32k/gdiobj.c`) |
| `MessageQueues`, `MessageLoop`, `MessageLaws` | USER message rings, WM_PAINT and the input event; runs and code; what each operation does, seen from outside (`kernel/ke/syscall.c`) |
| `FatNames`, `FatDirectory`, `FatLaws` | FAT names; directory search, enumeration and loading; what they come to in letters, records and table entries (`kernel/io/fat.c`; Microsoft FAT32 File System Specification, section "FAT Long Directory Entries") |

How things are stated. Code that edits memory is a class or a method over arrays, and its
contract gives the new state as a function of the old one; what that function means is proved
as lemmas. Sections that run with interrupts masked, or under a lock or one atomic instruction,
are one step of a state machine; runs are sequences of states, and the results hold for every
interleaving. Histories (what was linked, removed, produced, added) are ordinary state fields
that no step reads. Outcomes the code gets from elsewhere are parameters: whether memory could be
obtained, the address the pool returned, the tick count.

A function that states what an operation does is pinned down by laws that do not use it: counts
taken on the steps of a run, bytes, signals, ticks, or an inverse.

Results that are worth knowing outside the proofs:

- One-time initialization with a context whose low two bits are not clear is refused by
  `InitOnceComplete` after the callback ran, and the word then says "in progress" for ever:
  later callers spin if and only if the context was not aligned (`InitOnce.LaterCallers`).
- Wait-all does not reject a duplicated object: one permit listed twice is taken twice
  (`SignalAccounting.DuplicateWaitAll`). Over a run all signals stay in range if and only if no
  satisfied wait-all lists a counted object more often than it is signaled
  (`SignalAccounting.RangeExactly`).
- A wait whose 64-bit deadline wraps to exactly zero never falls due (`WaitOutcomes.NeverDue`).
- A FAT date with a day past the end of its month is accepted and comes back as a day of the next
  month (`Calendar.RunsOn`); the round trip holds exactly for valid fields.
- `NtUserInvalidateRect` accepts a slot before its window is created. An existing input event is
  signaled whenever its thread has work, in every state of a run, if and only if no step of the run
  creates a window on a slot that already owes a paint while its creator's event is unsignaled
  (`MessageLoop.EventsTold`; a run that does: `MessageLoop.EarlyInvalidationMissed`).
- `FatLoadFile` reports the recorded size even when the cluster chain ends early. The report is the
  number of bytes loaded if and only if the walk has the clusters the size needs
  (`FatDirectory.ReportExact`; a file for which it is not: `FatDirectory.ShortFile`).
- A directory that was never inserted can be deleted while it has entries. Its objects keep a
  namespace reference nobody will give up: they stay for the rest of the run
  (`Orphans.OrphansStay`). Over a run, `PointerCount` is handle entries, directory entry and held
  references for all objects if and only if no step takes the last reference of a directory that
  has entries (`Orphans.AccountsExact`; a run that does: `Orphans.EvictionHappens`). An inserted
  object is never deleted, so the detaching branch of `ObpDeleteObject` is dead
  (`ObjectTable.DeletedUninserted`).
- The initialization order puts each direct import before its importer unless the import leads
  back. For transitive imports there are two readings. If everything a module reaches is to come
  before it, the order does so for all modules if and only if no two modules import each other,
  directly or through others (`LoaderInit.TransitiveOrderExactly`), and for one module if and only
  if it is the last of its cycle to be finished (`LoaderInit.TransitiveExactly`). If only what does
  not lead back is to come before it, the order does so for modules of no cycle and for modules
  all of whose imports lead back (`LoaderInit.OneWayFirst`), but not always: a graph with a cycle
  where one comes too late is `LoaderInit.TransitiveOrderFails`.
- A growth of the pool that fails midway keeps the pages it committed. A later growth from the same
  end takes the mapping from exactly as many of their frames as it commits pages, the first ones;
  the others stay mapped just above the new end, and all stay in use (`HeapPages.LostExactly`; a
  run that loses 16 of 20 frames: `HeapGrowth.LoseFrames`). A page whose mapping is refused costs
  its frame as well, and no page comes to map that frame (`HeapPages.WastedFrame`).

## Model

| member | source | states |
|---|---|---|
| FrameAllocator.AgreeAfterWrite | kernel/mm/pmm.c:32-45 | one byte write changes the state of exactly one frame |
| FrameAllocator.CountAfterUpdate | kernel/mm/pmm.c:32-45 | the free count moves by exactly the change of one bit |
| FrameAllocator.CountAfterRun | kernel/mm/pmm.c:137-153 | allocating a free run of n frames lowers the free count by n |
| FrameAllocator.ProbeReaches | kernel/mm/pmm.c:112-128 | a search that starts at the hint and wraps looks at every frame |
| FrameAllocator.Pmm.constructor | kernel/mm/pmm.c:77-110 | after initialization a frame is free if and only if it lies wholly inside one available region and touches no reserved range |
| FrameAllocator.Pmm.ReserveRange | kernel/mm/pmm.c:48-60 | every frame the range touches becomes used, no other changes; counts stay exact |
| FrameAllocator.Pmm.FreeRange | kernel/mm/pmm.c:63-75 | every frame wholly inside becomes free, no other changes; counts stay exact |
| FrameAllocator.Pmm.AllocatePage | kernel/mm/pmm.c:112-128 | fails only when no frame is free; otherwise takes the first free frame in hint order and only that |
| FrameAllocator.Pmm.AllocatePages | kernel/mm/pmm.c:130-155 | for more than one frame returns the lowest free run, or fails only if there is none |
| FrameAllocator.Pmm.FreePages | kernel/mm/pmm.c:157-169 | frees exactly the frames of the range and pulls the hint back |
| FrameAllocator.AlignUpMeaning | kernel/mm/pmm.c:84 | alignment gives the first page boundary from an address on |
| PageTables.WordsAreFlags | kernel/mm/vmm.c:58-68 | or-ing and masking entry words is or-ing and masking their flags |
| PageTables.PageNumber | kernel/mm/vmm.c:116-133 | the four indices of an address are the digits of its page number |
| PageTables.CanonicalPages | kernel/mm/vmm.c:116-151 | canonical addresses share all four indices exactly when they are in one 4 KiB page |
| PageTables.SamePath | kernel/mm/vmm.c:58-68 | separation: two pages that meet in one table came there by the same indices |
| PageTables.PathUnchanged | kernel/mm/vmm.c:58-151 | frame rule: a write to one slot leaves every path that avoids it alone |
| PageTables.LinkKeepsTree | kernel/mm/vmm.c:58-68 | linking an unused frame under an absent entry keeps the tables a tree |
| PageTables.LinkKeepsLeaves | kernel/mm/vmm.c:58-68 | a fresh zeroed table translates nothing new, for any page |
| PageTables.SmallPutEffect | kernel/mm/vmm.c:116-151 | a page-table write changes the translation of exactly one page |
| PageTables.LargePutEffect | kernel/mm/vmm.c:71-80 | a 2 MiB write changes the translation of exactly the 512 pages it covers |
| AddressSpace.KernelSpace.constructor | kernel/mm/vmm.c:82-88 | a fresh root translates nothing |
| AddressSpace.KernelSpace.AllocateTable | kernel/mm/vmm.c:42-50 | a table's frame is none of the live tables, because the bitmap says so |
| AddressSpace.KernelSpace.NextTable | kernel/mm/vmm.c:58-68 | descends one level for the page, allocating only if the entry is absent; no translation changes |
| AddressSpace.KernelSpace.MapLarge | kernel/mm/vmm.c:71-80 | maps the 2 MiB around an address and nothing else |
| AddressSpace.KernelSpace.Initialize | kernel/mm/vmm.c:82-114 | after boot every address of memory, and of the first GiB, is reached at its place in the direct map, to the end of its 2 MiB; the kernel window reaches the first GiB; no other canonical address is translated |
| AddressSpace.BootTranslation | kernel/mm/vmm.c:82-114 | for every canonical address the boot tables give the window offset, or nothing outside the windows |
| AddressSpace.BootTranslatesAll | kernel/mm/vmm.c:82-114 | that is so for the end of memory the boot code was given, whatever it is |
| AddressSpace.MemoryReached | kernel/mm/vmm.c:92-97 | every byte below the end of memory or below 1 GiB translates to itself through the direct map |
| AddressSpace.NothingBeyond | kernel/mm/vmm.c:92-97 | from 2 MiB past both ends up to the kernel window nothing is translated |
| AddressSpace.BootIsPrivate | kernel/mm/vmm.c:86-99 | whatever the boot tables map is writable and out of reach of user code |
| AddressSpace.KernelSpace.MapPage | kernel/mm/vmm.c:116-133 | success changes the translation of exactly its page to the given frame; FALSE, which means a large page is there, changes none |
| AddressSpace.MappedReads | kernel/mm/vmm.c:116-173 | a mapped page is reached at its frame, byte for byte |
| AddressSpace.KernelSpace.UnmapPage | kernel/mm/vmm.c:135-151 | TRUE removes exactly that page; FALSE changes no table and no small page was there |
| AddressSpace.KernelSpace.GetPhysicalAddress | kernel/mm/vmm.c:153-173 | the table walk computes the flat map's answer |
| AddressSpace.KernelSpace.MappedMeansPhys | kernel/mm/vmm.c:153-173 | the invalid address is returned exactly for unmapped pages |
| AddressSpace.KernelSpace.ProbeForRead | kernel/mm/vmm.c:179-196 | TRUE if and only if every byte of the range is a mapped user address |
| AddressSpace.KernelSpace.ProtectRange | kernel/mm/vmm.c:230-240 | small pages of the range get exactly the new protection; no address anywhere translates differently |
| AddressSpace.RangePages | kernel/mm/vmm.c:230-240 | the pages whose protection changes are those that hold a byte of the range |
| AddressSpace.ProtectionMovesNothing | kernel/mm/vmm.c:230-240 | a change of protection between two pages keeps every address's translation |
| AddressSpace.ProtectionMeaning | kernel/mm/vmm.c:230-240 | the small pages of the range stay on their frames as user pages, writable exactly if that is asked for; no other page changes |
| AddressSpace.KernelSpace.AllocateFrame | kernel/mm/pmm.c:112-128 | whoever else takes a frame gets none of the live tables, and the tables stay sound |
| AddressSpace.KernelSpace.AllocateFrames | kernel/mm/pmm.c:130-155 | so for runs of frames |
| AddressSpace.KernelSpace.FreeFrames | kernel/mm/pmm.c:157-169 | whoever else frees frames that are no tables leaves the tables sound |
| Dispatcher.WakeKnown | kernel/ke/dispatcher.c:60-68 | waking a thread leaves every wait list naming known threads |
| WaitProtocol.PopThenWake | kernel/ke/dispatcher.c:71-79 | detaching the head of a list before waking its thread is the same as waking it |
| WaitProtocol.NothingToUnlink | kernel/ke/dispatcher.c:120-149 | a running thread owns no linked block |
| WaitProtocol.SignalKeeps | kernel/ke/dispatcher.c:71-79 | after a rise and the wakes that follow, no waiter of the object waits for something that is the case |
| WaitProtocol.BlockKeeps | kernel/ke/dispatcher.c:120-149 | a thread that blocks with its condition false is linked once per block and properly asleep |
| WaitProtocol.ExpireAll | kernel/ke/thread.c:276-298 | the timeout scan wakes the threads that are due and keeps the whole invariant |
| WaitProtocol.StepKeeps | kernel/ke/dispatcher.c:49-235 | every wait, resume, set, reset, release, tick, creation and termination keeps the wait invariant |
| DispatcherRuns.BootInv | kernel/ke/thread.c:36-63 | the boot state satisfies the invariant |
| DispatcherRuns.NoLostWakeup | kernel/ke/dispatcher.c:49-149 | in every reachable state each waiting thread's condition is false and its deadline ahead, its blocks are linked once each in the right lists, and each non-idle thread is in exactly one place |
| DispatcherRuns.StepMovesQueue | kernel/ke/thread.c:162-223 | the ready queue is FIFO: a reschedule takes exactly the head, everything else only appends |
| DispatcherRuns.BoundedBypass | kernel/ke/thread.c:162-223 | a thread at position k is current right after the (k+1)-th later KiSchedule, whatever else happens |
| DispatcherRuns.QuantumKept | kernel/ke/thread.c:276-298 | without a reschedule the running thread stays and only ticks spend its quantum |
| DispatcherRuns.TicksForceSchedules | kernel/ke/thread.c:276-298 | two ticks force at least one reschedule |
| DispatcherRuns.BypassInTicks | kernel/ke/thread.c:276-298 | a thread at position k has run within 2(k+1) clock ticks |
| WaitOutcomes.WaitResult | kernel/ke/dispatcher.c:86-149 | a wait is an error exactly for no or more than 64 objects; it is satisfied, at the lowest signaled index, exactly if its objects are signaled; else it times out exactly if its timeout is zero or its deadline has passed; else it blocks, with the call it made |
| WaitOutcomes.ResumeResult | kernel/ke/dispatcher.c:128-149 | a resumed wait times out if the clock woke it, and is otherwise tested like a new one |
| WaitOutcomes.StepThread | kernel/ke/dispatcher.c:49-235 | what a step does to a thread: a call goes on until it returns; who stops waiting was woken by the clock exactly when due, and otherwise by a signal; the dead stay dead; the clock counts ticks |
| WaitOutcomes.TimeoutsJust | kernel/ke/dispatcher.c:120-149 | in every run a wait returns a timeout only if its timeout is zero or its deadline has passed, and is satisfied whenever its condition holds and no deadline has passed |
| WaitOutcomes.AwakeInTime | kernel/ke/thread.c:276-298 | a finite wait of t ticks is no longer asleep after t ticks |
| WaitOutcomes.NeverDue | kernel/ke/dispatcher.c:94-124 | a timeout never falls due exactly if it is the all-ones one or its sum with the tick count wraps to zero |
| WaitOutcomes.CallAlong | kernel/ke/dispatcher.c:120-149 | over any run a blocked call stays as it was made until it returns |
| WaitOutcomes.CreatedThread | kernel/ke/thread.c:105-111 | a new thread is ready, last in the queue, with a full quantum |
| WaitOutcomes.CreatedObject | kernel/ke/dispatcher.c:167-225 | a new object has the signal, kind and limit asked for and no waiters |
| WaitOutcomes.YieldMeaning | kernel/ke/thread.c:162-223 | a yield runs the head of the queue, or the idle thread, and queues who ran last |
| WaitOutcomes.TickSwitches | kernel/ke/thread.c:276-298 | a tick takes the processor only at the end of a quantum, and gives a full one |
| WaitOutcomes.DeadStayDead | kernel/ke/thread.c:247-274 | over any run a terminated thread stays so and never runs |
| SignalAccounting.ConsumeEachExactly | kernel/ke/dispatcher.c:30-44 | consuming a list takes one unit per mention of a counted object, empties auto-reset events, leaves the rest |
| SignalAccounting.AcquireMeaning | kernel/ke/dispatcher.c:86-119 | a wait is satisfied if and only if its condition holds; wait-any consumes the lowest signaled index only; wait-all over distinct objects consumes all or none |
| SignalAccounting.WaitAllRange | kernel/ke/dispatcher.c:97-119 | wait-all keeps signals in range if and only if no counted object is listed more often than it is signaled |
| SignalAccounting.DuplicateWaitAll | kernel/ke/dispatcher.c:105-107 | the failing case: one permit listed twice leaves the signal at -1 |
| SignalAccounting.StepEffect | kernel/ke/dispatcher.c:17-235 | each step's effect on signals is one of: none, one object set, one wait satisfied, one object created |
| SignalAccounting.ReleaseAdds | kernel/ke/dispatcher.c:204-214 | only a release adds to a semaphore, its count as far as the limit allows |
| SignalAccounting.Conservation | kernel/ke/dispatcher.c:196-214 | in every run a semaphore is its initial value plus what releases added minus satisfied waits |
| SignalAccounting.OneWaitPerSet | kernel/ke/dispatcher.c:175-183 | waits satisfied on an auto-reset event never exceed its sets |
| SignalAccounting.StepRange | kernel/ke/dispatcher.c:97-235 | a step keeps all signals in range if and only if it satisfies no wait-all that lists a counted object more often than it is signaled |
| SignalAccounting.RangeExactly | kernel/ke/dispatcher.c:97-235 | in all states of a run from boot every semaphore is between 0 and its limit and every other signal 0 or 1, if and only if no step of it satisfies such a wait-all |
| SignalAccounting.SignalsInRange | kernel/ke/dispatcher.c:196-235 | in particular when all wait-alls list distinct objects |
| Kernel.UnlinkLoop | kernel/ke/dispatcher.c:49-58 | the loop over wait blocks removes the thread from every list it is on and nobody else |
| Kernel.System.constructor | kernel/ke/thread.c:36-63 | the code starts in the boot state the runs start from |
| Kernel.System.UnlinkThreadWait | kernel/ke/dispatcher.c:49-58 | takes the state to the specification's, by removals one block at a time |
| Kernel.System.WakeWaitingThread | kernel/ke/dispatcher.c:60-68 | unlink, status and readying are the specified wake |
| Kernel.System.SignalAll | kernel/ke/dispatcher.c:71-79 | the pop-and-wake loop is the specified signal |
| Kernel.System.Reschedule | kernel/ke/thread.c:162-206 | requeueing the running thread and taking the head is the specified schedule |
| Kernel.System.WaitForMultipleObjects | kernel/ke/dispatcher.c:86-149 | a wait up to its return or first block is the specified step, result included |
| Kernel.System.ResumeWait | kernel/ke/dispatcher.c:128-149 | a resumed wait unlinks, then times out or retests, as specified |
| Kernel.System.RaiseToOne | kernel/ke/dispatcher.c:175-183 | setting an event is the specified step |
| Kernel.System.Reset | kernel/ke/dispatcher.c:185-192 | resetting clears one signal and nothing else |
| Kernel.System.Release | kernel/ke/dispatcher.c:204-214 | a release adds up to the limit and wakes every waiter to retest |
| Kernel.System.TerminateThread | kernel/ke/thread.c:247-274 | the thread ends, its object is signaled, another thread runs |
| Kernel.System.CreateThread | kernel/ke/thread.c:105-111 | a new thread joins the ready queue's tail |
| Kernel.System.ClockTick | kernel/ke/thread.c:276-298 | expiry scan and quantum are the specified tick |
| PoolBlocks.Disjoint | kernel/ex/pool.c:88-134 | distinct blocks share no byte, header or payload |
| PoolBlocks.Aligned | kernel/ex/pool.c:216-257 | payloads are 16-aligned |
| PoolBlocks.TakenKeeps | kernel/ex/pool.c:194-257 | splitting and taking the first fit keeps tiling and coalescing and adds exactly the taken size to the used bytes |
| PoolBlocks.ReleasedHeap | kernel/ex/pool.c:264-311 | a release with two-sided coalescing keeps tiling and leaves no two adjacent free blocks |
| PoolBlocks.ReleasedBytes | kernel/ex/pool.c:264-311 | it lowers the used bytes by exactly the block's size |
| PoolBlocks.GrownHeap | kernel/ex/pool.c:137-176 | growth extends the tiling to the new end |
| PoolBlocks.GrownFits | kernel/ex/pool.c:137-176 | after growing for a request that fitted nowhere, the last block fits it, and only that one |
| PoolBlocks.AllFreeIsOneBlock | kernel/ex/pool.c:264-311 | with everything freed a single block spans the arena |
| Pool.SplitLinks | kernel/ex/pool.c:194-214 | the pointer edits of a split give exactly the headers of the split list |
| Pool.JoinLinks | kernel/ex/pool.c:264-311 | the pointer edits of a join give exactly the headers of the joined list |
| Pool.ReleasedIsJoins | kernel/ex/pool.c:264-311 | a mark and at most two joins are the specified release |
| Pool.ArmedKeepsGuards | kernel/ex/pool.c:49-54 | arming one guard disturbs no other block's guard |
| Pool.TakeIsolates | kernel/ex/pool.c:216-257 | allocation leaves every live block and its payload in place and overlaps none of them |
| Pool.ReleaseIsolates | kernel/ex/pool.c:264-311 | a release removes no other live block |
| Pool.KernelPool.constructor | kernel/ex/pool.c:178-190 | one free block over the first chunk, given that its pages were committed |
| Pool.KernelPool.GuardIntact | kernel/ex/pool.c:56-63 | TRUE exactly when every guard byte is as armed |
| Pool.KernelPool.Validate | kernel/ex/pool.c:88-134 | accepts exactly the sound pools, whatever state it is run in |
| Pool.KernelPool.ValidIsSound | kernel/ex/pool.c:88-134 | the invariant implies soundness, so the validator never fires |
| Pool.KernelPool.Grow | kernel/ex/pool.c:137-176 | given how many pages can be committed: growth that fails midway leaves the pool as it was; success is the specified growth |
| Pool.KernelPool.SplitNode | kernel/ex/pool.c:194-214 | splits one block as specified |
| Pool.KernelPool.ArmGuard | kernel/ex/pool.c:49-54 | the bytes past the request, and no others, become guard bytes |
| Pool.KernelPool.FindFit | kernel/ex/pool.c:216-257 | the walk along the links finds the lowest block that fits |
| Pool.KernelPool.Allocate | kernel/ex/pool.c:216-257 | takes the lowest block that fits, growing once if none does, and for a nonzero size fails only if growth fails; the block records exactly the bytes and the tag asked for, keeps what those bytes held, has sixteen guard bytes past them and wastes less than another block would take |
| Pool.TakenGrants | kernel/ex/pool.c:216-257 | the block taken is in use and records what was asked for |
| Pool.OverrunCaught | kernel/ex/pool.c:88-134 | if one byte past a request is changed no pool is sound, so the validator fires |
| PoolClients.AllocationKeepsLent | kernel/ex/pool.c:216-257 | an allocation takes from no client its block or a byte of it, and lies apart from all of them |
| PoolClients.ReleaseKeepsLent | kernel/ex/pool.c:264-311 | nor does a release by another client |
| PoolClients.Clients.Allocate | kernel/ex/pool.c:216-257 | in every run of clients: what is granted is the bytes asked for, apart from all that is granted |
| PoolClients.Clients.Write | kernel/ex/pool.c:49-63 | a client may write any byte it asked for at any time until it gives it back, and the pool stays sound |
| PoolClients.Clients.Read | kernel/ex/pool.c:216-311 | what a client reads is what was last written there, whatever the others did |
| PoolClients.Clients.Free | kernel/ex/pool.c:264-311 | giving back a grant succeeds and ends it; the others keep theirs |
| Pool.KernelPool.Free | kernel/ex/pool.c:264-311 | releases the block of that payload with both coalescings |
| Pool.KernelPool.ClientWrite | kernel/ex/pool.c:49-63 | a client that stays within its request keeps the pool valid |
| HeapGrowth.CommitPage | kernel/ex/pool.c:143-147 | a round takes one free frame and, if need be, tables, and no other frame; it maps the page to that frame or changes no translation, and is refused exactly where a large page is |
| HeapGrowth.CommitPages | kernel/ex/pool.c:142-148 | the loop on the frame allocator and the page tables: the frames now in use are those that were, one for each committed page, one more if the last mapping failed, and new tables; nothing outside the range translates differently; with page tables in place it commits as many pages as frames are free |
| HeapPages.MapsAfter | kernel/ex/pool.c:140-148 | a growth takes from a frame in use exactly its mappings in the pages it commits |
| HeapPages.HeapByte | kernel/ex/pool.c:140-148 | every byte of a committed range is at its place in its frame |
| HeapPages.WastedFrame | kernel/ex/pool.c:143-147 | the frame of a refused mapping is in use, is no table, and no page maps it that did not before |
| HeapPages.LostExactly | kernel/ex/pool.c:140-148 | of the frames an earlier growth left mapped from the same start, some page there still maps a frame if and only if its place is beyond the pages now committed; those are mapped where they were, and all are in use |
| HeapGrowth.CommitAgain | kernel/ex/pool.c:140-148 | that is so however the later growth ends |
| HeapGrowth.GrowPool | kernel/ex/pool.c:137-176 | the pool grows as specified exactly when every page was committed; otherwise it is as before and the committed pages stay |
| HeapGrowth.BootPool | kernel/ex/pool.c:178-190 | the first chunk is committed and the pool covers it, or frames ran out or a large page is in the way |
| HeapGrowth.LoseFrames | kernel/ex/pool.c:137-176 | a run: a growth by 32 pages fails after 20, others give frames back, a growth by 16 pages succeeds, and exactly the first 16 of the 20 frames are lost |
| ObjectManager.ReferenceKeeps | kernel/ob/ob_core.c:59-63 | a new reference keeps the accounts: PointerCount is table entries, parent link, held references and the manager's own; what it adds is ObjectLedger.HeldStep |
| ObjectManager.OpenKeeps | kernel/ob/ob_handle.c:50-69 | a new handle adds one to both counts of its object and to no other account |
| ObjectManager.ReleaseKeeps | kernel/ob/ob_core.c:65-93 | giving up a reference keeps the accounts, deleting at zero |
| ObjectManager.CloseKeeps | kernel/ob/ob_handle.c:123-145 | closing a handle keeps the accounts, deleting at zero |
| ObjectManager.RemoveKeeps | kernel/ob/ob_core.c:65-83 | deleting an unreferenced object leaves no handle and no directory naming it |
| ObjectManager.CreateKeeps | kernel/ob/ob_core.c:36-57 | a new object has one reference, its creator's |
| ObjectManager.InsertKeeps | kernel/ob/ob_namespace.c:78-95 | insertion adds the namespace's reference and keeps names in a directory distinct |
| ObjectManager.FindMeaning | kernel/ob/ob_namespace.c:66-76 | the search finds an entry of that name, or there is none |
| ObjectManager.LookupThrough | kernel/ob/ob_namespace.c:97-140 | looking up a path through a directory is going on from it |
| ObjectManager.LookupKept | kernel/ob/ob_namespace.c:97-140 | insertion hides nothing a path named |
| ObjectManager.InsertThenLookup | kernel/ob/ob_namespace.c:78-140 | round trip: an object inserted in a directory is found under the directory's path and its name, and other paths keep their meaning |
| ObjectTable.HandleRoundTrip | kernel/ob/ob_handle.c:26-42 | the handle encoding is a bijection between 0..4095 and its handles, none of them NULL |
| ObjectTable.SearchMeansFree | kernel/ob/ob_namespace.c:84-85 | the name is free exactly when the search finds nothing |
| ObjectTable.StepKeeps | kernel/ob/ob_core.c:36-93 | every operation keeps the accounts |
| ObjectTable.DeletedExactly | kernel/ob/ob_core.c:65-93 | an object is deleted, once, exactly by the operation that gives up its last reference |
| ObjectTable.DeletedUninserted | kernel/ob/ob_core.c:65-83 | what is deleted was never inserted and is not the root, so there is nothing to detach |
| ObjectTable.InsertedStays | kernel/ob/ob_core.c:65-93 | over any run an inserted object stays, under its name and parent |
| ObjectTable.HandleKept | kernel/ob/ob_handle.c:50-145 | closing it is the only operation after which a handle no longer names its object |
| ObjectTable.HandleStable | kernel/ob/ob_handle.c:50-145 | over any run a handle resolves to its live object until it is closed |
| ObjectTable.NothingDangles | kernel/ob/ob_core.c:65-83 | in any run no handle and no directory names a deleted object |
| ObjectTable.BootInv | kernel/ob/ob_core.c:12-18 | an empty table and the root directory satisfy the accounts |
| ObjectTable.Manager.constructor | kernel/ob/ob_core.c:12-18 | the table starts empty, with the root directory alone |
| ObjectTable.Manager.CreateObject | kernel/ob/ob_core.c:36-57 | the specified creation, or no change when the pool has no memory |
| ObjectTable.Manager.DeleteObject | kernel/ob/ob_core.c:65-83 | detaches from the namespace and removes, as specified |
| ObjectTable.Manager.DereferenceObject | kernel/ob/ob_core.c:85-93 | for a caller that holds a reference the count never underflows |
| ObjectTable.Manager.CreateHandle | kernel/ob/ob_handle.c:50-94 | the handle was free and now names the object; it fails only when all 4096 slots are taken |
| ObjectTable.Manager.ReferenceObjectByHandle | kernel/ob/ob_handle.c:96-121 | the checks in order, and on success a reference to what the handle names |
| ObjectTable.Manager.CloseHandle | kernel/ob/ob_handle.c:123-145 | the specified close, an error exactly for handles that name nothing |
| ObjectTable.Manager.InsertObjectByName | kernel/ob/ob_namespace.c:78-95 | succeeds exactly when the name is free |
| ObjectTable.Manager.LookupObjectByName | kernel/ob/ob_namespace.c:97-140 | the segment loop computes the recursive lookup, with its error cases, and references what it finds |
| ObjectTable.Manager.CreateDirectory | kernel/ob/ob_namespace.c:41-63 | the directory is created and placed, or created and deleted again on a collision |
| ObjectTable.DirectoryMeaning | kernel/ob/ob_namespace.c:41-63 | either an empty directory appears under its parent, or the objects are as before |
| ObjectLedger.HeldStep | kernel/ob/ob_core.c:59-93 | for every object and operation: references held grow by one exactly for creating, referencing, using a handle of it and finding it by a path, and shrink by one exactly for releasing it |
| ObjectLedger.HandlesStep | kernel/ob/ob_handle.c:50-145 | handles to an object grow by one exactly when one is opened in a free slot and shrink by one exactly when one that names it is closed |
| ObjectLedger.CountStep | kernel/ob/ob_core.c:59-93 | PointerCount changes by exactly those and by insertion, HandleCount by those of handles |
| ObjectLedger.UseMeaning | kernel/ob/ob_handle.c:96-121 | a handle can be used exactly if it names an object of the kind asked for and grants every right or those desired |
| ObjectLedger.OpenMeaning | kernel/ob/ob_handle.c:50-94 | opening fills one free slot with the object and its rights, or there is none |
| ObjectLedger.CreateMeaning | kernel/ob/ob_core.c:36-57 | a created object is live, of its kind, unnamed, and its creator's alone |
| ObjectLedger.InsertMeaning | kernel/ob/ob_namespace.c:78-95 | an insertion adds exactly one entry, under its name, if the directory has none of that name, and removes none |
| ObjectLedger.PathMeaning | kernel/ob/ob_namespace.c:97-140 | a path finds an object exactly if its names lead to it from the root; the two failures are told apart exactly |
| Orphans.ExactAccount | kernel/ob/ob_core.c:36-93 | PointerCount is handle entries, directory entry, held references and the manager's own if and only if the object is no orphan |
| Orphans.ParentLives | kernel/ob/ob_namespace.c:78-95 | ParentDirectory names a live directory that lists the object if and only if it is no orphan |
| Orphans.OrphanStep | kernel/ob/ob_namespace.c:17-22 | an object becomes an orphan exactly by the step that takes the last reference of a directory that lists it, and none ceases to be one |
| Orphans.OnlyUninserted | kernel/ob/ob_namespace.c:17-22 | only a directory that was never inserted, and not the root, can be deleted under its entries |
| Orphans.OrphansStay | kernel/ob/ob_core.c:65-93 | orphans are live, and orphans, for the rest of the run |
| Orphans.OrphansArise | kernel/ob/ob_namespace.c:17-22 | a run has no orphans if and only if no step takes the last reference of a directory with entries |
| Orphans.AccountsExact | kernel/ob/ob_core.c:36-93 | over a run every object is counted exactly if and only if no step takes the last reference of a directory with entries |
| Orphans.EvictionHappens | kernel/ob/ob_namespace.c:17-22 | a run from any sound state in which that fails: create a directory and an object, insert the object, release the directory |
| LoaderInit.ModuleTable.IndexByBase | kernel/ldr/pe.c:798-804 | the first valid module at the address, or none has it |
| LoaderInit.ModuleTable.RememberDependency | kernel/ldr/pe.c:806-814 | adds exactly the edge between the two modules, and none for zero or equal addresses |
| LoaderInit.FinishKeeps | kernel/ldr/pe.c:1166-1171 | a module is finished only after each import is finished or leads back to it; what it reaches is finished by then unless a module of its cycle is not |
| LoaderInit.CalledFits | kernel/ldr/pe.c:1176-1178 | at most 63 entries are made, so the block's capacity check never drops one |
| LoaderInit.CalledKeepsOrder | kernel/ldr/pe.c:1173-1184 | entries keep the order in which modules were finished |
| LoaderInit.WalkMeaning | kernel/ldr/pe.c:1157-1210 | a finished walk lists each called module once, nothing else, direct imports first except around a cycle, transitive imports first for modules in no cycle |
| LoaderInit.VisitKeeps | kernel/ldr/pe.c:1157-1184 | a visit keeps the walk, finishes only modules not yet visited, and leaves its module visited |
| LoaderInit.CodeOrder | kernel/ldr/pe.c:1157-1210 | what the code calls, for any graph: every valid module other than the executable with an entry point once, nothing else, v before u for each import u to v unless v reaches u, and for u in no cycle all it reaches before it |
| LoaderInit.CalledExactly | kernel/ldr/pe.c:1171-1184 | the modules called are those in slots 1 to 63 that are loaded and have an entry point |
| LoaderInit.TransitiveExactly | kernel/ldr/pe.c:1157-1210 | everything a module reaches is finished before it if and only if it is the last of its cycle |
| LoaderInit.TransitiveOrderExactly | kernel/ldr/pe.c:1157-1210 | everything every module reaches is finished before it if and only if no two modules of the graph import each other, directly or through others |
| LoaderInit.OneWayFirst | kernel/ldr/pe.c:1157-1210 | everything a module reaches that does not lead back is finished before it, if the module is in no cycle or all it reaches leads back |
| LoaderInit.CyclicOrder | kernel/ldr/pe.c:1157-1210 | the finishing order of a graph with a cycle: 2, 3, 1, 0 |
| LoaderInit.TransitiveOrderFails | kernel/ldr/pe.c:1157-1210 | there a module is finished and called before one it imports through another and that does not lead back |
| LoaderInit.InitBlock.Finish | kernel/ldr/pe.c:1171-1184 | appends the module's entry if it is called at start |
| LoaderInit.InitBlock.Visit | kernel/ldr/pe.c:1157-1184 | terminates on any graph and is the specified visit |
| LoaderInit.InitBlock.Build | kernel/ldr/pe.c:1202-1210 | from a fresh block: for each called module in the specified finishing order its load address and load address plus entry point |
| Relocations.WriteReads | kernel/ldr/pe.c:104-107 | a stored word reads back, other bytes stay |
| Relocations.AddCommutes | kernel/ldr/pe.c:102-108 | additions at slots that do not partly overlap commute |
| Relocations.ApplyComposes | kernel/ldr/pe.c:85-112 | adding d at all slots and then e is adding d + e |
| Relocations.TableAgrees | kernel/ldr/pe.c:94-111 | the walk depends on the table's bytes only |
| Relocations.RelocatedWellFormed | kernel/ldr/pe.c:85-112 | the relocated image lists the same slots and is again well formed |
| Relocations.GroupAction | kernel/ldr/pe.c:85-112 | relocating by d then e is relocating by d + e; by d then -d restores the image |
| Relocations.ExactEffect | kernel/ldr/pe.c:85-112 | each listed word rises by delta modulo 2^64 once per listing; no other byte changes |
| Relocations.BlockThenRest | kernel/ldr/pe.c:94-111 | relocating one block and going on in the changed image is the whole walk |
| Relocations.RelocateBlock | kernel/ldr/pe.c:98-109 | the entry loop, reading the image it is changing, applies the block's slots |
| Relocations.ApplyRelocations | kernel/ldr/pe.c:85-112 | the in-place walk makes the specified image, early exits included |
| RelocationTable.SlotsMeaning | kernel/ldr/pe.c:94-111 | a word is relocated exactly if some entry of some block names it: bytes of block sizes, type 10, page plus low 12 bits |
| RelocationTable.NamedMoves | kernel/ldr/pe.c:85-112 | a word the table's bytes name moves by delta once per naming |
| RelocationTable.UnnamedStays | kernel/ldr/pe.c:85-112 | a byte of no such word stays |
| RelocationTable.SmallImage | kernel/ldr/pe.c:85-112 | one word and a table of twelve bytes, worked out |
| ThreadPool.WorkQueue.Append | user/kernel32.c:2752-2759 | the pointer edits under the lock are the specified link |
| ThreadPool.WorkQueue.TakeFirst | user/kernel32.c:2690-2699 | the pointer edits under the lock are the specified unlink |
| ThreadPool.QueueFits | user/kernel32.c:2747-2750 | the queue never holds more items than exist |
| ThreadPool.ReleaseSucceeds | user/kernel32.c:2761-2767 | the semaphore cannot overflow, so the failure path after linking is not taken |
| ThreadPool.WokenFinds | user/kernel32.c:2685-2699 | whoever is owed an item finds one at the head |
| ThreadPool.LinkKeeps | user/kernel32.c:2752-2759 | linking keeps pointers, counts and places in step |
| ThreadPool.UnlinkKeeps | user/kernel32.c:2690-2699 | so does unlinking |
| ThreadPool.StepKeeps | user/kernel32.c:2682-2769 | every interleaved step keeps the protocol's invariant |
| ThreadPool.Protocol | user/kernel32.c:2682-2769 | in every run: queue length is semaphore count plus woken workers yet to take plus submitters yet to release; FIFO; what a worker runs no other thread holds and is not queued; one lock holder |
| ThreadPool.WokenNeverEmpty | user/kernel32.c:2685-2702 | no worker that passed the wait ever finds the queue empty |
| ThreadPool.HistoryGrows | user/kernel32.c:2682-2769 | what was linked or taken stays so, in place |
| ThreadPoolLedger.ItemLedger | user/kernel32.c:2743-2769 | over a run, counted on its steps: submissions that found an item free are its links plus those on their way; its callbacks are its takings less those under way |
| ThreadPoolLedger.QueueLedger | user/kernel32.c:2682-2769 | over a run: links are releases plus those to come; passes are takings plus those to come; the semaphore is releases less passes |
| ThreadPoolLedger.LockLedger | user/kernel32.c:2682-2769 | over a run: the lock was taken as often as given up but for its holder, and each turn inside linked or took one item |
| ThreadPoolLedger.NobodyStuck | user/kernel32.c:2682-2769 | in every reachable state every thread can act but for a held lock or a count of zero, and the lock's word names exactly who is inside |
| ThreadPoolLedger.NothingForgotten | user/kernel32.c:2682-2769 | with all threads between calls or at the wait, the count announces exactly what is queued |
| InitOnce.Once.Claim | user/kernel32.c:2568-2572 | the swap wins exactly when the specified step starts a callback |
| InitOnce.Once.Complete | user/kernel32.c:2585-2599 | the word and result of completion, refusals included |
| InitOnce.StepKeeps | user/kernel32.c:2552-2620 | every step keeps word, callback and results in step, and rewrites no history |
| InitOnce.OneCallback | user/kernel32.c:2552-2620 | at most one callback is in progress |
| InitOnce.NoneAfterSuccess | user/kernel32.c:2552-2620 | after an aligned success none runs or starts |
| InitOnce.FailureRetries | user/kernel32.c:2591-2594 | after a failure a thread about to swap wins |
| InitOnce.SameContext | user/kernel32.c:2601-2620 | every successful return yields the context of the one successful callback |
| InitOnce.MisalignedIsForever | user/kernel32.c:2595-2596 | a success is recorded if and only if its context is aligned; otherwise nobody initializes or returns successfully again |
| InitOnce.LaterCallers | user/kernel32.c:2552-2620 | after a successful callback a caller reads the context if it is aligned, and otherwise, and only then, finds the word in progress and spins |
| InitOnce.ReadSees | user/kernel32.c:2552-2583 | what a read leads to: the context after an aligned success; the swap, or "not yet" for a check, with nobody at work; otherwise another read |
| InitOnce.SwapWins | user/kernel32.c:2568-2572 | a swap wins exactly if no callback succeeded, was refused or is in progress |
| InitOnce.CompletionResult | user/kernel32.c:2585-2620 | a call that ran the callback ends with its context, or fails if the callback failed or its context was not aligned |
| InitOnce.FailureIsOwn | user/kernel32.c:2601-2620 | a call fails only through its own callback |
| InitOnce.MisalignedHappens | user/kernel32.c:2595-2596 | a run in which that happens |
| Bresenham.NearestUnique | kernel/win32k/gdiobj.c:746-758 | a place along the longer side has one nearest point |
| Bresenham.AdvanceKeeps | kernel/win32k/gdiobj.c:755-757 | one turn makes one step along the longer side and reaches the nearest point there |
| Bresenham.WalkIsNearest | kernel/win32k/gdiobj.c:746-758 | after k turns the loop is at the nearest point k steps along |
| Bresenham.WalkUnique | kernel/win32k/gdiobj.c:746-758 | and at no other point that is nearest |
| Bresenham.WalkEnds | kernel/win32k/gdiobj.c:753-754 | the exit test holds exactly at turn max(dx, dy) |
| Bresenham.ErrorBound | kernel/win32k/gdiobj.c:746-758 | twice the deviation is at most max(dx, dy), and twice the error term at most three times that |
| Bresenham.LineMeaning | kernel/win32k/gdiobj.c:732-761 | the line has max(dx, dy) + 1 points from start to target, each 8-adjacent to the one before and within the bound |
| Bresenham.PointInBox | kernel/win32k/gdiobj.c:732-761 | every point lies between the ends |
| Drawing.PlacesDiffer | kernel/win32k/gdiobj.c:255-261 | different pixels have different places in the array |
| Drawing.PutInLines | kernel/win32k/gdiobj.c:255-261 | read line by line, the array changes at the pixel's column of its line only |
| Drawing.PlotMeaning | kernel/win32k/gdiobj.c:732-761 | exactly the visited points inside clip box and surface change, to the pen's color |
| Drawing.Surface.SetPixel | kernel/win32k/gdiobj.c:255-261 | writes one place, or nothing off the surface |
| Drawing.Surface.Fill | kernel/win32k/gdiobj.c:232-253 | exactly the rectangle's pixels on the surface change |
| Drawing.DeviceContext.Clip | kernel/win32k/gdiobj.c:265-282 | the result is exactly the intersection with the clip box, FALSE when it is empty |
| Drawing.DeviceContext.FillRect | kernel/win32k/gdiobj.c:284-290 | exactly the rectangle's pixels inside clip box and surface change; without a surface none do |
| Drawing.DeviceContext.MoveTo | kernel/win32k/gdiobj.c:716-729 | returns the old position and sets the new |
| Drawing.DeviceContext.DrawLine | kernel/win32k/gdiobj.c:741-759 | the loop plots exactly the line, in 32-bit arithmetic that does not overflow |
| Drawing.DeviceContext.LineTo | kernel/win32k/gdiobj.c:732-761 | moves the current position, and plots the line unless the pen is hollow |
| Drawing.TurnFits | kernel/win32k/gdiobj.c:755-757 | no intermediate value leaves 32 bits while three times the longer side fits |
| Calendar.YearStartClosed | user/kernel32.c:607-610 | summing year lengths by the leap rule gives 365n + n/4 - n/100 + n/400 |
| Calendar.MonthsFillYear | user/kernel32.c:1331-1337 | the month table makes up the year |
| Calendar.MonthsOf2001 | user/kernel32.c:614-615 | the days before each month of a common year |
| Calendar.KnownDays | user/kernel32.c:607-610 | 1970-01-01 is day 134774, a Thursday; February 29 of 1900, 2000 and 2001 |
| Calendar.DatesInOrder | user/kernel32.c:1321-1337 | later dates have larger day numbers |
| Calendar.TimeUnique | user/kernel32.c:1304-1348 | a tick value has at most one correct answer |
| Calendar.FindYear | user/kernel32.c:1321-1327 | the year a day number falls in, or 30828 when it is too late |
| Calendar.FindMonth | user/kernel32.c:1332-1338 | the month a day of the year falls in; it never runs past December |
| Calendar.FileTimeToSystemTime | user/kernel32.c:1304-1348 | for every tick value before year 30828, and only those, a valid date and time that encodes the ticks rounded down to a millisecond, with its weekday |
| Calendar.FatDatetimeTicks | user/kernel32.c:612-634 | the loops compute the ticks of the fields, without overflow; 0 for rejected dates |
| Calendar.FatRoundTrip | user/kernel32.c:612-634 | converting back gives the same fields if and only if they are valid |
| Calendar.PackedRoundTrip | user/kernel32.c:612-634 | any date from 1980 to 2107 and time of day, packed as FAT does and converted there and back, is itself to the even second |
| Calendar.RunsOn | user/kernel32.c:612-634 | a day past the end of its month comes back as a day of the next month |
| Calendar.FatBelowLimit | user/kernel32.c:612-634 | every FAT time converts back |
| MessageQueues.PutAppends | kernel/ke/syscall.c:593-611 | a put appends to the ring; it is full exactly at 63 |
| MessageQueues.AdvanceDrops | kernel/ke/syscall.c:735-738 | advancing the tail drops the oldest |
| MessageQueues.NextDirtyMeaning | kernel/ke/syscall.c:570-578 | the search finds the lowest dirty window of the thread |
| MessageQueues.SyncKeeps | kernel/ke/syscall.c:529-538 | bringing one event in step tells it |
| MessageQueues.DequeueKeeps | kernel/ke/syscall.c:734-739 | removal keeps FIFO, and events told |
| MessageQueues.MarkKeeps | kernel/ke/syscall.c:675-699 | marking or clearing any slot, handed out or not, keeps paints bounded, and events told |
| MessageQueues.PaintKeeps | kernel/ke/syscall.c:708-733 | delivering a WM_PAINT keeps FIFO, and events told |
| MessageLoop.StepKeeps | kernel/ke/syscall.c:529-742 | every operation keeps the books; it keeps every event told if and only if it is no creation on a slot that owes a paint for a creator with an unsignaled event |
| MessageLoop.CreateKeeps | kernel/ke/syscall.c:2262-2289 | the exact condition for one creation |
| MessageLoop.Delivery | kernel/ke/syscall.c:529-742 | in every run: removed messages are a prefix of the accepted ones and the rest is queued; at most four paints per invalidation |
| MessageLoop.EventsTold | kernel/ke/syscall.c:529-742 | in all states of a run every existing event is signaled while its thread has work, if and only if no step creates a window on a slot that owes a paint for a creator with an unsignaled event |
| MessageLoop.HistoryGrows | kernel/ke/syscall.c:529-742 | histories only grow |
| MessageLoop.PostMeaning | kernel/ke/syscall.c:580-640 | a post is accepted exactly with fewer than 63 queued, at the end of the recipient's queue and no other |
| MessageLaws.PostLaw | kernel/ke/syscall.c:580-615 | a post goes to the end of the queue of its window's owner, or else of the poster, if that has fewer than 63, and nowhere else |
| MessageLaws.PostThreadLaw | kernel/ke/syscall.c:617-640 | so for a post to a thread |
| MessageLaws.InvalidateLaw | kernel/ke/syscall.c:675-686 | an invalidated window owes four paints, no other changes, and the owner's event says exactly whether there is work |
| MessageLaws.ValidateLaw | kernel/ke/syscall.c:690-699 | a validated window owes none |
| MessageLaws.TakeMessageLaw | kernel/ke/syscall.c:701-742 | with messages queued the oldest is handed over and goes exactly if it is to be removed; then the event says exactly whether there is work |
| MessageLaws.TakePaintLaw | kernel/ke/syscall.c:708-733 | with none queued a WM_PAINT for the first window that owes one, which owes one less; with none owed, nothing |
| MessageLaws.AskLaw | kernel/ke/syscall.c:990-1013 | the event exists afterwards if it did or could be made, and says exactly whether there is work |
| MessageLaws.WindowLaw | kernel/ke/syscall.c:2262-2289 | a creation takes the next slot for its creator, a destruction gives one up, and neither touches queues, events or paints owed |
| MessageLaws.FourPaints | kernel/ke/syscall.c:701-742 | counted on the steps of a run, a window is painted at most four times per invalidation, fewer by what it still owes |
| MessageLaws.AllFourCount | kernel/ke/syscall.c:701-742 | unless it is validated, what was painted and what is owed make four |
| MessageLoop.TakeMeaning | kernel/ke/syscall.c:701-742 | the oldest posted message; with none, a WM_PAINT for the first dirty window; with neither, nothing |
| MessageLoop.RemoveMeaning | kernel/ke/syscall.c:734-741 | removal takes off exactly that message, looking takes off none |
| MessageLoop.EarlyInvalidationMissed | kernel/ke/syscall.c:675-686 | from any start state a run that does: ask for the event, invalidate slot 1, create the window |
| MessageLoop.Desktop.SyncInputEvent | kernel/ke/syscall.c:529-538 | sets or resets the event by what is pending |
| MessageLoop.Desktop.EnqueueMessage | kernel/ke/syscall.c:580-615 | the specified post to the window's owner or the poster |
| MessageLoop.Desktop.EnqueueThreadMessage | kernel/ke/syscall.c:617-640 | the specified post to a thread |
| MessageLoop.Desktop.InvalidateWindow | kernel/ke/syscall.c:675-686 | the specified marking |
| MessageLoop.Desktop.ValidateWindow | kernel/ke/syscall.c:690-699 | the specified clearing |
| MessageLoop.Desktop.TakeMessage | kernel/ke/syscall.c:701-742 | the specified take |
| MessageLoop.Desktop.GetInputEvent | kernel/ke/syscall.c:990-1013 | creates the event on first use and publishes the current state |
| MessageLoop.Desktop.TakeSlot | kernel/ke/syscall.c:2262-2289 | the specified creation: the next slot gets its owner, or none is left |
| MessageLoop.Desktop.GiveUpSlot | kernel/ke/syscall.c:2429-2433 | the specified destruction: the slot loses its owner |
| FatNames.RoundTrip83 | kernel/io/fat.c:93-117 | from_83 of to_83 of an 8.3 name is the name in upper case if and only if it has no space and no final dot |
| FatNames.LongNameRoundTrip | kernel/io/fat.c:158-177 | splitting an ASCII name of up to 255 characters into fragments and replaying them rebuilds it |
| FatNames.ReplayHolds | kernel/io/fat.c:158-177 | after the fragments down to k, the buffer holds the name from there on |
| FatNames.To83Form | kernel/io/fat.c:93-117 | the loops compute base and extension, padded and in upper case |
| FatNames.NameIs83 | kernel/io/fat.c:189-209 | TRUE exactly for one to eight characters, then nothing, or a dot and at most three without another dot |
| FatNames.NameEqualIgnoringCase | kernel/io/fat.c:146-156 | TRUE exactly for equal length and equal letters but for case |
| FatLaws.EqualMeaning | kernel/io/fat.c:146-156 | names compare equal exactly if they differ at most in the case of the 26 letters |
| FatLaws.FindIgnoresCase | kernel/io/fat.c:211-265 | a search does not depend on the case of the wanted name |
| FatNames.PutLongFragment | kernel/io/fat.c:158-177 | the in-place copy is the specified one |
| FatNames.From83Form | kernel/io/fat.c:267-278 | writes the short name as text, terminated |
| FatDirectory.FoldRun | kernel/io/fat.c:241-249 | reading a run of fragments replays them |
| FatDirectory.FindIsFirstMatch | kernel/io/fat.c:211-265 | the search returns the first entry whose long name, or representable short name, matches, and nothing only if there is none before the end |
| FatDirectory.LongNameMatches | kernel/io/fat.c:241-254 | an entry preceded by a name's fragments answers to it in any spelling of case |
| FatLaws.OwnName | kernel/io/fat.c:239-258 | an entry directly after another entry or a deleted record is reported and matched by its own short name only |
| FatLaws.LongNameReported | kernel/io/fat.c:241-254 | a long name directly before its entry is the one reported |
| FatLaws.ForeignLongName | kernel/io/fat.c:158-177 | a long name of other characters comes back with a question mark for each of them |
| FatDirectory.FatFind | kernel/io/fat.c:211-265 | over any walk that ends, fails or finds, cyclic or not, the search of the clusters is the search of one flat list |
| FatDirectory.SearchForever | kernel/io/fat.c:211-265 | if and only if no walk settles a search, it is undecided after any number of clusters, so the loop does not end |
| FatDirectory.NthIsListing | kernel/io/fat.c:280-352 | asking for 0, 1, 2 and so on yields the files in order, each once |
| FatLaws.NthMeaning | kernel/io/fat.c:280-352 | the k-th answer is the file with k files before it |
| FatLaws.FileBits | kernel/io/fat.c:323-328 | a file is an entry with neither the volume nor the directory bit |
| FatDirectory.ReportedMatches | kernel/io/fat.c:280-352 | a name the enumeration reports, a long name or a short one in the form FAT writes, matches its entry in a search |
| FatDirectory.ReportedFound | kernel/io/fat.c:211-352 | searching a name the enumeration reports returns the first entry that matches it, the reported one or one before it |
| FatDirectory.EnumerateRoot | kernel/io/fat.c:280-352 | over any walk that ends, fails or finds: the wanted file of the flat list, and not ready only if a cluster cannot be read |
| FatDirectory.LoadedBytes | kernel/io/fat.c:354-409 | the loaded bytes are the chain's, complete exactly when the chain is long enough |
| FatDirectory.LoadedComplete | kernel/io/fat.c:380-395 | never more than the size is loaded, and all of it if and only if the walk has the clusters it needs |
| FatDirectory.ReportExact | kernel/io/fat.c:380-398 | the reported size is the number of bytes loaded if and only if the walk has the clusters it needs |
| FatDirectory.ReportByChain | kernel/io/fat.c:380-398 | for a chain that ends: if and only if its clusters hold the size |
| FatLaws.ChainOfTable | kernel/io/fat.c:78-91 | clusters that the table's entries, low 28 bits, lead through to an end are the chain |
| FatLaws.FileLoaded | kernel/io/fat.c:354-409 | a file with such a chain, readable and long enough, is loaded, each byte from its place in its cluster, and reported with its size |
| FatLaws.DirectorySearched | kernel/io/fat.c:211-265 | a directory with such a chain settles every search |
| FatDirectory.ShortFile | kernel/io/fat.c:380-398 | a file that is reported longer than it was loaded |
| FatDirectory.LoadFile | kernel/io/fat.c:354-409 | FatLoadFile: each status exactly in its case, and on success the loaded bytes in the buffer and the entry's size reported |
| FatDirectory.LoadChain | kernel/io/fat.c:380-395 | the copy loop ends on any allocation table and loads those bytes, or fails exactly when a needed cluster cannot be read |

## Left out

- Hardware: port I/O, disk transfers, interrupt and timer set-up, CR3 and invlpg, context-switch
  assembly, FPU state. A context switch is the change of the current thread; a disk is a map from
  clusters to contents.
- Logging, trace output and statistics (`TotalObjects`, `TotalHandles`, the handle census).
- AddressSpace.KernelSpace.MapPage: bits 9 to 11 and 52 to 63 of entries are not modelled, no
  caller sets them; running out of frames for a table is an outcome of its own, the bugcheck.
- AddressSpace.KernelSpace.Initialize: assumes that the direct map ends below the kernel window.
- AddressSpace.KernelSpace.constructor: assumes a free frame for the root table; without one the
  source bugchecks.
- AddressSpace.KernelSpace.MapLarge: assumes that no page table exists yet; only the boot code calls it.
- FrameAllocator.Pmm.constructor: assumes memory-map regions that do not wrap around 2^64, a
  kernel image above its load address, and at least 1 MiB of memory. The boot code passes such maps.
- MmCaptureUnicodeName, and the contents of frames other than page tables.
- DispatcherRuns.NoLostWakeup: the idle thread keeps state Running while switched out, so only
  non-idle threads are in exactly one place. It never waits or terminates.
- SignalAccounting.Conservation: signals are unbounded integers; an overflow of LONG by a wait-all
  of duplicates is not modelled. Releases have positive counts and semaphores positive limits, as
  the system services check.
- WaitOutcomes.AwakeInTime: is about sums of tick count and timeout below 2^64 - 1; a sum that wraps
  is due at the wrapped tick count, WaitOutcomes.WaitResult covers it.
- Mutant ownership: the code keeps none, so a mutant is a counted object with limit one.
- Pool.KernelPool.constructor: takes the first chunk as committed; HeapGrowth.BootPool commits it.
- Pool.KernelPool.Allocate: assumes sizes whose rounding does not wrap and an arena below 2^64.
- Pool.KernelPool.Free: frees of addresses that were never payloads, beyond the check of the
  header at that address, are not modelled; headers and payload bytes are separate memories.
- ObjectTable.Manager.InsertObjectByName: assumes an object that is not yet in the namespace, as
  all callers do; inserting one twice would link one entry into two lists.
- ObjectTable.Manager.ReferenceObjectByHandle: access masks are sets of rights; only the generic-all
  bit is told apart.
- The loader's parsing of headers, imports and exports, its hard-coded patches, and the lookup of
  the user-mode start routine after the initialization block is built.
- Relocations.ApplyRelocations: addresses are offsets into the image, and the walk is assumed to
  stay inside it and its slots to miss the table.
- Relocations.GroupAction: assumes slots that do not partly overlap each other.
- ThreadPool.Protocol: worker start-up and slot allocation, which takes slots without the lock, are
  not modelled. A callback that submits work counts as one more submitting thread.
- InitOnce.OneCallback: callers of the begin and complete functions outside
  InitOnceExecuteOnce are modelled only as far as check-only calls.
- SRW locks, whose exclusive acquire overwrites the reader count, and the process heap.
- Drawing.DeviceContext.LineTo: assumes coordinates for which the 32-bit arithmetic does not
  overflow.
- Drawing.DeviceContext.DrawLine: the same; see Drawing.TurnFits.
- Drawing.DeviceContext.Clip: assumes corner sums within 32 bits.
- Pen selection, pixel formats and the deletion of a selected bitmap are not modelled; a
  missing surface is.
- MessageLoop.EventsTold: nobody but the queue code sets or resets the input event.
- FatDirectory.FatFind: a search that no walk settles has no result; FatDirectory.SearchForever says
  when that is so. Directory records are given by kind, their 32 bytes are not decoded.
- FatDirectory.LoadFile: the copy of the file information is not modelled.
- LoaderInit.OneWayFirst: where a module of a cycle also imports modules that do not lead back, the
  order depends on the numbering of the slots; no condition short of the walk itself is given.
- HeapGrowth.GrowPool: assumes an arena that stays below 2^64.
- FatMount and the arithmetic from clusters to sectors.
- The rest of the Win32 layer: fonts, COM and shell facades, registry, string helpers. They would
  add only easy members.
