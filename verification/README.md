# THUOS core: a verified model

This project models the hardware-independent logic of the THUOS kernel in Dafny and proves what
that logic promises over whole runs: the kernel heap, the xHCI rings and the USB report hand-off,
the scheduler with cooperative tasks and the context switch, physical memory, paging, drawing into
the linear framebuffer with its composited cursor, and the in-memory file system.
`dafny verify dfyconfig.toml` checks everything.

| file | part of the system |
|---|---|
| `Common.dfy`, `Traces.dfy` | word and page sizes; runs of a step relation |
| `RawMemory.dfy` | little-endian words in byte memory |
| `HeapBlocks.dfy` | the heap as an address-ordered block list: rounding, first fit, split, coalescing |
| `HeapRuns.dfy` | heap calls as steps on memory and list; what every run keeps |
| `KernelHeap.dfy` | the allocator itself, reading and rewriting headers in memory |
| `CommandRing.dfy`, `EventRing.dfy` | producer and event rings as interleaved single-word steps |
| `RingOverrun.dfy` | when a push without a full check is safe |
| `HidHandoff.dfy` | one interrupt TRB per HID device between controller and `usb_poll`, as an abstract hand-off |
| `UsbSystem.dfy` | the same over the real rings, word by word, refining the hand-off |
| `UsbDriver.dfy` | `usb_poll` itself, and the state enumeration leaves |
| `Scheduler.dfy` | the round-robin policy and its fairness |
| `ContextSwitch.dfy`, `CoopTasks.dfy` | the stack swap, fresh task frames, the cooperative run |
| `FrameBitmap.dfy`, `PhysicalMemory.dfy` | the frame bitmap and the manager over it |
| `BootMemory.dfy` | which memory is free after boot, byte for byte |
| `ReservedFrames.dfy` | when frames reserved at boot stay out of circulation |
| `PageTables.dfy`, `MappedWindows.dfy` | building page tables, walking them, the device windows |
| `Framebuffer.dfy`, `DesktopCursor.dfy` | pixels, lines, discs, blits, and the save-under cursor |
| `Ramfs.dfy` | the slot table and bump arena as a finite map |

The pattern is the same throughout. Code that changes state in place is a class or a method on
arrays, with the source's loops; its contract ties the new state to a step relation or a function
of the old state. The promises are then lemmas about those steps and about runs of them.

## How the model reads the source

- Pointers and `size_t` are 32 bits (i386), so a heap header takes 16 bytes. Wherever the source's
  32-bit or 64-bit arithmetic can wrap it is written out: `align_up`, `reserve_range`, the region
  ends in `pmm_init`, `vmm_identity_map`, the table count of the windows, the `ramfs_write` bound.
- A heap caller (`HeapRuns.CallerOk`) passes NULL, a live pointer, or a pointer the header checks
  turn away, and writes only inside its own payloads. `heap_realloc` tests the magic but not the
  free flag, so for it "turned away" means that the magic is missing.
- In the ring models every volatile word the driver writes and every word the controller reads is
  a step, and the steps of both sides interleave freely. The controller follows the cycle bit and
  link rules of sections 4.9.2 and 4.9.3, and never overruns the dequeue pointer it was last told
  (section 4.9.4 of the xHCI specification).
- In `ContextSwitch` memory is a sequence of 32-bit words and addresses count words. In
  `CoopTasks` the worker's locals `me` and `i` live in `ebx` and `esi`, and what a context does
  between two switches on its own stack and in its registers is arbitrary. The number of tasks and
  of iterations is arbitrary.
- The controller executes a fetched TRB as it is written: it transfers into the buffer at the TRB's
  address, at most its length, and posts an event if the TRB is a Normal one that asks for it.
- Bit masks on page-table entries are written as division and remainder by the page size; bits of
  the frame bitmap are genuine 8-bit operations.
- The Multiboot memory map is a list of entries, empty when the map has no length and otherwise
  independent of it; boot information and the kernel's bounds are parameters of
  `PhysicalMemory.Manager.Init`.
- C division truncates: the starting error term of a steep line is minus half its height.

## Where the code falls short of a promise

Each of these keeps the code as it is, shows the failure, and gives the exact condition.

- `ring_push` has no full check, and "fewer than n - 1 TRBs outstanding" is not enough: on the last
  slot the push also rewrites the link TRB, and a controller still waiting at that link then cannot
  move until the driver pushes again (`CountAloneIsNotEnough`, `StallMayEnd`); one caught in the
  middle of a TRB consumes a torn one (`MidReadExactly`). `PushSafeExactly` gives the exact
  condition. After
  enumeration every push of `arm_interrupt` meets it (`ArmMayPush`); a request of `cmd_submit` or
  `control_xfer` meets it when its ring is drained at the start (`RequestsMayPush`).
- `align_up` wraps above 0xFFFFFFF8 and such a request is answered with a buffer of fewer
  than 24 bytes, or in place with the old one; an answer has room for the request if and only if
  it did not wrap (`AlignUpExact`, `AllocRefines`, `ReallocRefines`, `WrappedAllocIsShort`).
- `sched_block` does not look at the state, so an exited task can be blocked and unblocked into
  READY (`BlockRevivesExited`, `ExitedUnlessBlocked`).
- `reserve_range` reserves nothing when its end lies above 0xFFFFF000 (`ReservesCoveredExactly`);
  a range with an unaligned start reserves its first frame but does not protect it from being freed
  (`ReservedIsProtectedExactly`), and over all runs reserved frames stay out of circulation if and
  only if every range's first frame is protected (`ReservedKeptExactly`), which the boot information
  can break (`BootInfoLeaks`); an available region that reaches 4 GiB
  makes `highest` zero (`HighestCoversExactly`, `TopRegionLosesMemory`).
- `pmm_init` rounds the start of an available region down, so a region that starts inside a page
  frees a frame lying partly outside it (`PartialFrameOffered`), and it truncates starts at or above
  2^44. Every frame freed lies in its region if and only if the region starts on a page boundary
  below 2^44, or nothing is freed at all (`WholeFramesExactly`); in the other direction no whole
  frame is missed (`WholeFramesOffered`, `AvailableIsFree`).
- `wait_event` matches only the event type. A transfer event dropped that way silences its device
  for good (`SilentForGood`); after enumeration none is dropped (`ReportsDelivered`).
- `vmm_map_lfb` clamps to its eight tables without saying so: a region is present throughout if
  and only if its span from the 4 MiB boundary below fits (`RegionPresentExactly`). A second mapping
  of a window reuses its tables, and walks stay identities if and only if it takes over the
  directory entry of every table it rewrites (`SecondMappingAliases`, `SecondMappingExactly`).
- ramfs truncates names over 31 characters on store and compares in full on lookup: such a file can
  never be read back (`ReadBackExactly`).

## Model

| member | source | states |
|---|---|---|
| `RawMemory.PutThenLoad` | kernel/mm/kheap_core.c:14-19 | a header word read back from byte memory is the word that was stored |
| `RawMemory.PutThenLoadOther` | kernel/mm/kheap_core.c:14-19 | storing one header word changes no other word |
| `RawMemory.StoreWord` | kernel/mm/kheap_core.c:14-19 | the four byte stores make memory the one with that word put there |
| `RawMemory.LittleEndian` | kernel/mm/kheap_core.c:14-19 | a stored word lies in memory least significant byte first |
| `HeapBlocks.AlignUpExact` | kernel/mm/kheap_core.c:23 | rounding gives the next multiple of eight exactly up to 0xFFFFFFF8, and zero above |
| `HeapBlocks.FirstFit` | kernel/mm/kheap_core.c:53-54 | the chosen block is free and large enough and no earlier one is |
| `HeapBlocks.TakeTiles` | kernel/mm/kheap_core.c:56-66 | splitting or taking whole keeps the blocks tiling the arena, 8-aligned |
| `HeapBlocks.TakeLive` | kernel/mm/kheap_core.c:53-67 | exactly one block becomes live; it exceeds the rounded request by less than a header and 8 bytes |
| `HeapBlocks.CoalesceTiles` | kernel/mm/kheap_core.c:72-81 | the merging pass keeps the tiling |
| `HeapBlocks.CoalesceCoalesced` | kernel/mm/kheap_core.c:72-81 | one forward pass leaves no two adjacent free blocks |
| `HeapBlocks.CoalesceLive` | kernel/mm/kheap_core.c:72-81 | merging neither loses nor invents a live block and starts no block at a new address |
| `HeapBlocks.BytesAccounted` | kernel/mm/kheap_core.c:110-126 | used + free + 16 per block is the whole arena |
| `HeapBlocks.TakeUses` | kernel/mm/kheap_core.c:110-114 | taking a block raises the used bytes by exactly its size |
| `HeapBlocks.CoalesceUses` | kernel/mm/kheap_core.c:72-81 | merging changes no used byte |
| `HeapBlocks.FirstFitComplete` | kernel/mm/kheap_core.c:49-70 | on a coalesced list a block fits if and only if some contiguous free run is long enough, and first fit is at or below every such run |
| `HeapBlocks.AllFreeIsOneBlock` | kernel/mm/kheap_core.c:3-8 | when everything is free the arena is one block again |
| `HeapRuns.StepKeepsValid` | kernel/mm/kheap_core.c:49-106 | every call keeps the tiling, the links in memory, the alignment and the coalescing |
| `HeapRuns.LivePayloadsApart` | kernel/mm/kheap_core.c:49-70 | payloads are disjoint, inside the arena, 8-aligned and clear of every header |
| `HeapRuns.AllocRefines` | kernel/mm/kheap_core.c:49-70 | NULL exactly when no free run fits; otherwise the lowest fit becomes a fresh buffer and every other buffer keeps its bytes |
| `HeapRuns.FreeRefines` | kernel/mm/kheap_core.c:83-90 | free removes exactly that buffer; a refused free changes nothing |
| `HeapRuns.MoveRefines` | kernel/mm/kheap_core.c:92-106 | a moving realloc replaces the buffer by a new one that begins with all the old bytes; no other buffer changes |
| `HeapRuns.WriteRefines` | kernel/mm/kheap_core.c:3-8 | a client write inside a payload changes that byte of that buffer and nothing else |
| `HeapRuns.StepIsolates` | kernel/mm/kheap_core.c:49-106 | a call not about a live buffer leaves it live with the same bytes |
| `HeapRuns.RunsStayValid` | kernel/mm/kheap_core.c:30-106 | every reachable heap is well formed over the same arena |
| `HeapRuns.RunsConserveBytes` | kernel/mm/kheap_core.c:110-126 | used + free + headers never changes over any run |
| `HeapRuns.RunsIsolateBuffers` | kernel/mm/kheap_core.c:49-106 | over any run, a buffer keeps its place and bytes until a call that is about it |
| `HeapRuns.RunsKeepRoomy` | kernel/mm/kheap_core.c:39-66 | every payload stays at least 8 bytes, unless a request wrapped |
| `HeapRuns.ReallocRefines` | kernel/mm/kheap_core.c:92-106 | NULL changes nothing and means nothing was large enough; otherwise the answer begins with all the old bytes, and it has room for the request if and only if the request did not wrap |
| `HeapRuns.ReallocOfNull` | kernel/mm/kheap_core.c:93 | with NULL a buffer is added exactly as an allocation adds one |
| `HeapRuns.ReallocToNothing` | kernel/mm/kheap_core.c:94 | to size 0 exactly that buffer is removed and the answer is NULL |
| `HeapRuns.AllocUses` | kernel/mm/kheap_core.c:110-114 | heap_used grows by exactly the buffer handed out |
| `HeapRuns.FreeUses` | kernel/mm/kheap_core.c:110-114 | heap_used shrinks by exactly the buffer freed |
| `HeapRuns.WrappedAllocIsShort` | kernel/mm/kheap_core.c:51 | a request above 0xFFFFFFF8 gets the lowest free block, cut to nothing if it has 24 bytes or more |
| `HeapRuns.RunsReclaimEverything` | kernel/mm/kheap_core.c:83-90 | once nothing is live, in whatever order it was freed, the heap is the single initial block |
| `KernelHeap.InitialBlocksTile` | kernel/mm/kheap_core.c:30-47 | the initial block covers the aligned arena; there is none exactly when the arena is too small |
| `KernelHeap.Heap.constructor` | kernel/mm/kheap_core.c:30-47 | heap_init writes that block's header into memory and nothing else |
| `KernelHeap.Heap.Alloc` | kernel/mm/kheap_core.c:49-70 | the walk over headers in memory performs exactly an allocation step |
| `KernelHeap.Heap.Occupy` | kernel/mm/kheap_core.c:56-67 | the header writes of a split leave memory spelling out the new list |
| `KernelHeap.Heap.CoalesceFree` | kernel/mm/kheap_core.c:72-81 | the relinking pass in memory computes the coalesced list, touching only headers |
| `KernelHeap.Heap.Free` | kernel/mm/kheap_core.c:83-90 | heap_free performs exactly a free step, refusals included |
| `KernelHeap.Heap.Realloc` | kernel/mm/kheap_core.c:92-106 | heap_realloc performs exactly a realloc step in all its branches; failure leaves the state unchanged |
| `KernelHeap.Heap.Move` | kernel/mm/kheap_core.c:101-105 | allocate, copy, free amount to one move |
| `KernelHeap.MoveAssembled` | kernel/mm/kheap_core.c:101-105 | the three effects compose: the old bytes arrive, only headers and the new room change |
| `KernelHeap.Heap.CopyBytes` | kernel/mm/kheap_core.c:26-28 | the byte loop copies disjoint regions |
| `KernelHeap.Heap.Used` | kernel/mm/kheap_core.c:110-114 | the sum over live blocks |
| `KernelHeap.Heap.FreeTotal` | kernel/mm/kheap_core.c:116-120 | the sum over free blocks |
| `KernelHeap.Heap.Count` | kernel/mm/kheap_core.c:122-126 | the number of blocks |
| `KernelHeap.Heap.Check` | kernel/mm/kheap_core.c:128-139 | heap_check accepts a header chain if and only if every header is sound |
| `KernelHeap.ValidPassesCheck` | kernel/mm/kheap_core.c:128-139 | in every well-formed heap each header of the chain is sound, so the check returns 1 |
| `KernelHeap.DamageIsFound` | kernel/mm/kheap_core.c:128-139 | one header with another magic, outside the arena or with a gap behind it makes the check refuse |
| `CommandRing.LinkControl` | kernel/drivers/usb/xhci.c:156 | the link word has type 6, Toggle Cycle and the producer's cycle bit |
| `CommandRing.Initial` | kernel/drivers/usb/xhci.c:153-157 | a freshly linked ring satisfies the ring invariant, its link telling the controller to toggle |
| `CommandRing.StepInv` | kernel/drivers/usb/xhci.c:158-168 | every single word write of the driver and every read of the controller keeps the ring invariant |
| `CommandRing.RingDelivers` | kernel/drivers/usb/xhci.c:158-168 | in every interleaving and across any number of wraps, with a controller that toggles its cycle state only if the link word says so, the consumed TRBs are a prefix of the pushed ones, whole, once each and in order |
| `CommandRing.Drain` | kernel/drivers/usb/xhci.c:158-168 | with the driver idle the controller alone can consume everything that was pushed |
| `RingOverrun.PushSafeExactly` | kernel/drivers/usb/xhci.c:159-168 | with room, and the controller not waiting at a link about to be rewritten, a push is safe, and only then: the invariant is kept, a controller between TRBs can go on, and one in the middle of a TRB consumes it as pushed (otherwise it does so only if the words left to read agree) |
| `RingOverrun.MidReadExactly` | kernel/drivers/usb/xhci.c:159-168 | after a push a controller in the middle of a TRB consumes it whole if the push was allowed, else one torn between the old and the new |
| `RingOverrun.OverrunStalls` | kernel/drivers/usb/xhci.c:159-168 | a push without that condition stops a controller that is between TRBs, with TRBs outstanding, until the next push |
| `RingOverrun.StallMayEnd` | kernel/drivers/usb/xhci.c:164-167 | in a ring of two the next push sets a controller stalled at the link going again |
| `RingOverrun.CountAloneIsNotEnough` | kernel/drivers/usb/xhci.c:164-167 | for every ring size a reachable state with n - 2 outstanding where the next push stalls the controller |
| `CommandRing.CountedBoundSuffices` | kernel/drivers/usb/xhci.c:159-168 | counting is enough below n - 2, or below n - 1 away from the last slot |
| `CommandRing.RequestsMayPush` | kernel/drivers/usb/xhci.c:189-233 | from a drained ring every push of a request of up to three TRBs is allowed, in every interleaving with the controller |
| `CommandRing.Ring.Link` | kernel/drivers/usb/xhci.c:153-157 | clears the ring and closes it with a toggling link to its own address |
| `CommandRing.Ring.Push` | kernel/drivers/usb/xhci.c:159-168 | performs exactly the word writes of the step machine, link refresh and cycle flip included |
| `EventRing.MoveKeeps` | kernel/drivers/usb/xhci.c:172-187 | every word the controller posts and every word the driver reads keeps the event ring invariant |
| `EventRing.EventsInOrder` | kernel/drivers/usb/xhci.c:172-187 | in every interleaving events are taken in order and once each, and the dequeue pointer names the next unconsumed event |
| `EventRing.DecodesEvent` | kernel/drivers/usb/xhci.c:176-178 | of an event laid out by the controller the driver extracts exactly its type, completion code and slot |
| `EventRing.PollFindsExactlyPosted` | kernel/drivers/usb/xhci.c:380-381 | the cycle test succeeds if and only if an event was posted and not taken |
| `EventRing.TookIsSixSteps` | kernel/drivers/usb/xhci.c:380-387 | the six single reads and writes of taking an event amount to one take |
| `EventRing.Ring.Take` | kernel/drivers/usb/xhci.c:380-387 | decodes the event, moves the cursor with the cycle toggled at the end, writes the dequeue pointer |
| `EventRing.Ring.Wait` | kernel/drivers/usb/xhci.c:172-187 | takes events in ring order until one of the wanted kind; everything dropped is of another kind |
| `HidHandoff.StepKeeps` | kernel/drivers/usb/xhci.c:376-398 | in the abstract hand-off each ready device keeps exactly one token: armed, event pending, or being handled |
| `HidHandoff.BufferNeverShared` | kernel/drivers/usb/xhci.c:359-398 | in every run of the hand-off the controller never owns a buffer that is being read, and the reports read are those delivered, in order |
| `HidHandoff.SilentForGood` | kernel/drivers/usb/xhci.c:182-187 | a device whose transfer event was dropped is never armed or read again, in any run |
| `UsbSystem.StepRefines` | kernel/drivers/usb/xhci.c:159-398 | every single word fetched, posted, read or stored, and every DMA write, is a step of the hand-off or leaves it unchanged |
| `UsbSystem.StepKeeps` | kernel/drivers/usb/xhci.c:228-233 | every such step keeps all ring invariants, the event ring's, and the one token per device |
| `UsbSystem.ArmMayPush` | kernel/drivers/usb/xhci.c:228-233 | arm_interrupt always finds its ring drained, so its unchecked push is allowed |
| `UsbSystem.ArmTrb` | kernel/drivers/usb/xhci.c:228-233 | the TRB asks for a transfer of the report's length into the device's buffer, with an interrupt on completion |
| `UsbSystem.DmaStaysHome` | kernel/drivers/usb/xhci.c:228-233 | executing a fetched TRB, the controller writes only that device's buffer and not past its end |
| `UsbSystem.ReportsDelivered` | kernel/drivers/usb/xhci.c:359-398 | in every interleaving: no TRB names a buffer being read, each consumed TRB asks for the device's report in the device's own buffer and stands for one report, and reports are read in order, at most one behind |
| `UsbSystem.ArmedCanBeFetched` | kernel/drivers/usb/xhci.c:228-233 | a published interrupt TRB can always be fetched once the driver has left the ring |
| `UsbSystem.HeldCanFinish` | kernel/drivers/usb/xhci.c:228-233 | a fetched TRB can be completed with an event whenever the event ring takes one |
| `UsbDriver.FirstArm` | kernel/drivers/usb/xhci.c:336-352 | ring_link and one arm_interrupt leave a device's ring armed once |
| `UsbDriver.StartInv` | kernel/drivers/usb/xhci.c:251-353 | devices with distinct slots, each armed once, with no event waiting, satisfy the system invariant |
| `UsbDriver.IterationReaches` | kernel/drivers/usb/xhci.c:379-397 | an undisturbed iteration of usb_poll is a run of single steps of the system and keeps its invariant |
| `UsbDriver.IterationRearms` | kernel/drivers/usb/xhci.c:388-396 | after an iteration that handled a device its ring holds exactly one TRB and all delivered reports are read |
| `UsbDriver.PollReaches` | kernel/drivers/usb/xhci.c:376-398 | so is any number of iterations |
| `UsbDriver.Usb.Poll` | kernel/drivers/usb/xhci.c:376-398 | usb_poll over the rings in memory performs iterations until its limit or until the cycle bit shows no event |
| `UsbDriver.Usb.HandleNext` | kernel/drivers/usb/xhci.c:380-396 | the loop body takes the event off the event ring, matches its slot, handles and re-arms |
| `UsbDriver.Usb.Rearm` | kernel/drivers/usb/xhci.c:228-233 | reads that device's buffer and pushes its TRB, touching no other ring |
| `Scheduler.Apply` | kernel/sched/sched_core.c:24-85 | every call keeps the table well formed: at most the current slot is RUNNING |
| `Scheduler.Scan` | kernel/sched/sched_core.c:44-53 | the first ready slot in cyclic order from the cursor |
| `Scheduler.PickGoesNoFurther` | kernel/sched/sched_core.c:39-56 | a pick never passes over a ready slot and leaves the cursor just past its choice |
| `Scheduler.BoundedWaiting` | kernel/sched/sched_core.c:24-85 | a task left READY is chosen within ((slot - cursor) mod cap) + 1 picks under any interleaving of calls |
| `Scheduler.NoOvertaking` | kernel/sched/sched_core.c:39-56 | a slot further from the cursor cannot be chosen before a ready one that is nearer |
| `Scheduler.FairRotation` | kernel/sched/sched_core.c:39-56 | between two picks of one task every continuously ready task is picked |
| `Scheduler.RunnerComesBack` | kernel/sched/sched_core.c:39-56 | a running task that is preempted is chosen again within a full turn of the table |
| `Scheduler.SliceLasts` | kernel/sched/sched_core.c:24-65 | a task added with quantum q runs for max(q, 1) ticks every time it is picked, whatever happened before, and each tick adds one to its count |
| `Scheduler.BlockedWaits` | kernel/sched/sched_core.c:67-78 | a blocked task is not chosen until it is unblocked or exits |
| `Scheduler.StopReleasesCpu` | kernel/sched/sched_core.c:67-85 | blocking or exiting the current task leaves nobody current |
| `Scheduler.ExitedStaysExited` | kernel/sched/sched_core.c:80-85 | an exited task that nobody blocks stays exited and is never chosen |
| `Scheduler.ExitedUnlessBlocked` | kernel/sched/sched_core.c:67-78 | an exited task stays so throughout a run if and only if no call blocks it |
| `Scheduler.BlockRevivesExited` | kernel/sched/sched_core.c:67-78 | blocking then unblocking an exited task makes it READY |
| `Scheduler.Table.Init` | kernel/sched/sched_core.c:4-16 | every slot unused, nothing current, cursor at 0 |
| `Scheduler.Table.Add` | kernel/sched/sched_core.c:24-37 | fills the first unused slot, or returns -1 |
| `Scheduler.Table.PickNext` | kernel/sched/sched_core.c:39-56 | the mutating scan performs exactly a pick and returns the chosen id or -1 |
| `Scheduler.Table.OnTick` | kernel/sched/sched_core.c:58-65 | accounts a tick and reports exactly when the slice has run out |
| `Scheduler.Table.Block` | kernel/sched/sched_core.c:67-72 | performs exactly a block |
| `Scheduler.Table.Unblock` | kernel/sched/sched_core.c:74-78 | performs exactly an unblock |
| `Scheduler.Table.Exit` | kernel/sched/sched_core.c:80-85 | performs exactly an exit |
| `ContextSwitch.Cpu.ContextSwitch` | kernel/sched/context.S:12-28 | four pushes, the save, four pops and the return: memory and registers afterwards |
| `ContextSwitch.Cpu.TaskInit` | kernel/sched/task.c:16-32 | a first switch enters `entry` with zeroed registers and the stack pointer at the 16-aligned top; the esp field names that frame; nothing else changes |
| `ContextSwitch.SwitchEffect` | kernel/sched/context.S:12-28 | the caller is parked at its return point, the target resumes exactly what it saved, all other stacks are untouched |
| `ContextSwitch.SuspendedUntilResumed` | kernel/sched/context.S:12-28 | over any run on other stacks a suspended context keeps its whole stack and resumes exactly as saved |
| `ContextSwitch.SwitchAwayAndBack` | kernel/sched/context.S:12-28 | switching away and later back restores ebx, esi, edi, ebp, the stack pointer and the return address |
| `CoopTasks.YieldEffect` | kernel/sched/coop.c:27-37 | after a yield the yielder is parked at its return point with its locals and everyone else is as before |
| `CoopTasks.TurnAdvances` | kernel/sched/coop.c:40-50 | one worker turn leads to the next task's turn, the next round, or the finish |
| `CoopTasks.TurnOrder` | kernel/sched/coop.c:40-50 | turn r * n + k of any run is task k's turn of round r, resumed from its last saved context |
| `CoopTasks.DemoTerminates` | kernel/sched/coop.c:40-62 | after exactly n * (iters + 1) turns and not before control is back in main, all tasks are ZOMBIE and the ticks are strict round robin |
| `CoopTasks.TurnPossible` | kernel/sched/coop.c:40-50 | with room on every stack, whoever's turn it is can take it |
| `CoopTasks.DemoBounded` | kernel/sched/coop.c:40-62 | no run has more than n * (iters + 1) turns |
| `CoopTasks.DemoStopsExactly` | kernel/sched/coop.c:40-62 | a run can go on if and only if it has had fewer than n * (iters + 1) turns, and otherwise it is finished |
| `CoopTasks.DemoCompletes` | kernel/sched/coop.c:40-62 | from the first turn there is a run to the finish, of exactly that length |
| `CoopTasks.DemoStarts` | kernel/sched/coop.c:52-62 | from freshly set-up tasks main's first yield enters task 0 of round 0; with no tasks main keeps running |
| `CoopTasks.EnrolledTable` | kernel/sched/coop.c:53-58 | after enrolling, slots 0 to n-1 are READY under their own index |
| `CoopTasks.Demo.Yield` | kernel/sched/coop.c:27-37 | coop_yield performs exactly a yield: pick, and hand over unless the choice is the caller |
| `CoopTasks.Demo.SwitchTo` | kernel/sched/coop.c:34-36 | the call of the switch uses only the caller's own stack and lands in the target |
| `CoopTasks.Demo.SetUp` | kernel/sched/coop.c:57 | the task is parked at the worker's entry and no other stack or cell is touched |
| `CoopTasks.Demo.Prepare` | kernel/sched/coop.c:53-58 | after the loop every task is enrolled under its index and freshly parked |
| `CoopTasks.Demo.Launch` | kernel/sched/coop.c:52-60 | set-up and first yield together reach task 0's turn in round 0, for any iteration count |
| `UsbDriver.Usb.Lookup` | kernel/drivers/usb/xhci.c:389-391 | the first used, configured device with that slot |
| `FrameBitmap.Init` | kernel/mm/frame_bitmap.c:7-10 | every frame used, bytes beyond untouched |
| `FrameBitmap.MarkUsed` | kernel/mm/frame_bitmap.c:12-14 | exactly that frame becomes used |
| `FrameBitmap.MarkFree` | kernel/mm/frame_bitmap.c:16-18 | exactly that frame becomes free |
| `FrameBitmap.MarkRegionUsed` | kernel/mm/frame_bitmap.c:24-26 | exactly the frames of the region below the total become used |
| `FrameBitmap.MarkRegionFree` | kernel/mm/frame_bitmap.c:28-30 | exactly the frames of the region below the total become free |
| `FrameBitmap.Alloc` | kernel/mm/frame_bitmap.c:32-46 | the lowest free frame becomes used and no other bit changes; none exactly when all are used |
| `FrameBitmap.CountFree` | kernel/mm/frame_bitmap.c:52-56 | the number of free frames |
| `FrameBitmap.FreeCountFlip` | kernel/mm/frame_bitmap.c:12-18 | changing one frame changes the count by exactly that frame |
| `FrameBitmap.NoneFreeIffZero` | kernel/mm/frame_bitmap.c:52-56 | the count is zero if and only if every frame is used |
| `PhysicalMemory.ReservesCoveredExactly` | kernel/mm/pmm.c:39-48 | every frame whose base a range covers is reserved if and only if the rounding of its end does not wrap |
| `PhysicalMemory.ReservedIsProtectedExactly` | kernel/mm/pmm.c:39-54 | every reserved frame is protected if and only if the range starts on a page boundary |
| `PhysicalMemory.HighestCoversExactly` | kernel/mm/pmm.c:84-89 | `highest` covers every available region if and only if none reaches 4 GiB |
| `PhysicalMemory.TopRegionLosesMemory` | kernel/mm/pmm.c:88-89 | a last region reaching 4 GiB leaves no frames at all |
| `PhysicalMemory.StepKeepsSafe` | kernel/mm/pmm.c:120-135 | an allocation or any free keeps every protected frame used |
| `PhysicalMemory.ProtectedNeverHandedOut` | kernel/mm/pmm.c:120-141 | in any run with any free arguments no protected frame is handed out, and 0 means that nothing was free |
| `PhysicalMemory.BadFreesRefused` | kernel/mm/pmm.c:127-134 | at any point of any run -1 means exactly not a managed frame, and -2 exactly a protected one |
| `PhysicalMemory.DoubleFreeRefused` | kernel/mm/pmm.c:132 | freeing a frame again before it was handed out again answers -3, whatever happened between |
| `PhysicalMemory.RunsAccount` | kernel/mm/pmm.c:120-147 | when only held frames are freed, frees succeed, no frame is held twice, and free + held is constant |
| `PhysicalMemory.FramesBalance` | kernel/mm/pmm.c:143-147 | usable = free + reserved + held at every point of such a run |
| `ReservedFrames.BootedReserves` | kernel/mm/pmm.c:110-117 | after pmm_init every frame a recorded range reserves is used and frame 0 is protected |
| `ReservedFrames.RunsKeepReserved` | kernel/mm/pmm.c:120-141 | with protected first frames every reserved frame stays used over any run |
| `ReservedFrames.AllocateUntil` | kernel/mm/pmm.c:120-125 | allocating often enough hands out any free frame |
| `ReservedFrames.UnprotectedLeaks` | kernel/mm/pmm.c:127-141 | a reserved frame no range protects can be freed and is later handed out |
| `ReservedFrames.ReservedKeptExactly` | kernel/mm/pmm.c:39-141 | over all runs with arbitrary frees no reserved frame is handed out if and only if every range's first frame is protected |
| `ReservedFrames.BootInfoLeaks` | kernel/mm/pmm.c:99-117 | a boot without a memory map, its information at an unaligned address, that breaks the condition |
| `PhysicalMemory.Manager.ReserveRange` | kernel/mm/pmm.c:39-54 | marks exactly the range's frames, counts only those that were free, records the range while there is room |
| `PhysicalMemory.Manager.FreeOffered` | kernel/mm/pmm.c:80-98 | frees exactly the frames from the rounded-down start to the rounded-down end of each available region and computes `highest` |
| `PhysicalMemory.WholeFramesExactly` | kernel/mm/pmm.c:86-94 | every frame freed for a region lies in it if and only if the region starts on a page boundary below 2^44 or frees nothing |
| `PhysicalMemory.WholeFramesOffered` | kernel/mm/pmm.c:86-95 | every frame that lies in an available region below 4 GiB is freed |
| `PhysicalMemory.PartialFrameOffered` | kernel/mm/pmm.c:91-94 | a region starting inside a page whose first frame is freed though half of it lies outside |
| `PhysicalMemory.Manager.Init` | kernel/mm/pmm.c:56-118 | a frame is free exactly when offered and not reserved; usable counts the offered frames and is free + reserved even where ranges overlap; protected frames are used unless a range wraps |
| `BootMemory.AvailableIsFree` | kernel/mm/pmm.c:77-117 | after boot every frame in available memory that shares no byte with low memory, the kernel, the boot information or the memory map is managed and free |
| `BootMemory.UpperIsFree` | kernel/mm/pmm.c:99-107 | without a map the same for all of upper memory |
| `BootMemory.OccupiedIsUsed` | kernel/mm/pmm.c:113-117 | no frame that shares a byte with one of them is free |
| `BootMemory.OccupiedIsProtected` | kernel/mm/pmm.c:49-53 | and every one of their bytes is protected from being freed |
| `PhysicalMemory.Manager.IsProtected` | kernel/mm/pmm.c:137-141 | some recorded range covers the address |
| `PhysicalMemory.Manager.AllocFrame` | kernel/mm/pmm.c:120-125 | performs exactly an allocation step |
| `PhysicalMemory.Manager.FreeFrame` | kernel/mm/pmm.c:127-135 | performs exactly a free step with the source's four answers |
| `PageTables.EntryRoundTrip` | kernel/mm/vmm_core.c:11-15 | an entry gives back its page and all twelve flag bits |
| `PageTables.AddressSplit` | kernel/mm/vmm_core.c:7-9 | the two indices and the offset determine the address |
| `PageTables.PagesForExact` | kernel/mm/vmm_core.c:26-27 | the page count covers the bytes if and only if they are at most 0xFFFFF000, and the table count is the least that holds the pages |
| `PageTables.IdentityWalk` | kernel/mm/vmm_core.c:24-58 | after a successful identity map exactly the addresses below the rounded size translate, each to itself, for any flags |
| `PageTables.SetPteWalk` | kernel/mm/vmm_core.c:20-22 | that page now walks to the new frame with its offset kept; every other page walks as before |
| `PageTables.SetPdeWalk` | kernel/mm/vmm_core.c:17-19 | only walks under that directory entry change |
| `PageTables.TranslateVa` | kernel/mm/vmm_core.c:45-58 | vmm_translate over the arrays is the walk |
| `PageTables.SetPde` | kernel/mm/vmm_core.c:17-19 | writes exactly the entry of that address |
| `PageTables.SetPte` | kernel/mm/vmm_core.c:20-22 | writes exactly the word of that address in the given table |
| `PageTables.IdentityMap` | kernel/mm/vmm_core.c:24-43 | builds the identity tables, or touches nothing when the pool is too small |
| `MappedWindows.PresentWalkIsIdentity` | kernel/mm/vmm.c:69-112 | with self-mapped tables every present walk yields the address itself |
| `MappedWindows.WindowKeepsSelfMap` | kernel/mm/vmm.c:72-112 | mapping an unused window keeps every present walk an identity, whatever else shares its directory entries |
| `MappedWindows.WindowPresent` | kernel/mm/vmm.c:81-87 | every address under a mapped table is present afterwards |
| `MappedWindows.GrantCoversExactly` | kernel/mm/vmm.c:75-101 | the tables a call maps cover the region if and only if its span from the 4 MiB boundary below fits the window's tables |
| `MappedWindows.GrantIsTight` | kernel/mm/vmm.c:75-101 | the last table mapped holds a byte of the region |
| `MappedWindows.RegionPresentExactly` | kernel/mm/vmm.c:72-112 | a region not mapped before is present throughout after the call if and only if its span fits |
| `MappedWindows.PresenceKept` | kernel/mm/vmm.c:72-112 | what was mapped to itself stays so under a later window |
| `MappedWindows.BootedIsSelfMapped` | kernel/mm/vmm.c:24-33 | after vmm_init every present walk is an identity and neither window is in use |
| `MappedWindows.WindowsInAnyOrder` | kernel/mm/vmm.c:24-112 | after boot and one mapping of each window, in either order, present walks are identities and both windows and low memory are present |
| `MappedWindows.BootedRights` | kernel/mm/vmm.c:24-33 | the low 8 MiB are present, writable and open to ring 3 in both entries of every walk |
| `MappedWindows.WindowRights` | kernel/mm/vmm.c:81-108 | window pages are present and writable for the kernel only, with exactly the window's own page flags |
| `MappedWindows.SecondMappingAliases` | kernel/mm/vmm.c:81-87 | an entry of the first mapping that the second does not take over, though it rewrites its table, walks into the second region |
| `MappedWindows.SecondMappingExactly` | kernel/mm/vmm.c:72-112 | after two mappings of one window, of any places and sizes, present walks are identities if and only if the second takes over the entry of every table it rewrites |
| `MappedWindows.Vmm.Init` | kernel/mm/vmm.c:24-33 | builds the low 8 MiB identity map, low bits 7 in every entry, and becomes ready |
| `MappedWindows.Vmm.MapLfb` | kernel/mm/vmm.c:72-91 | refuses only when not ready or empty, clamps to eight tables, maps the window writable for the kernel only |
| `MappedWindows.Vmm.MapMmio` | kernel/mm/vmm.c:96-112 | refuses more than two tables, otherwise maps the window writable, for the kernel only and cache-disabled |
| `Framebuffer.WalkTracks` | kernel/drivers/lfb.c:178-184 | the error term is the exact distance from the ideal line and the longer axis moves at every step |
| `Framebuffer.LineStep` | kernel/drivers/lfb.c:182-184 | one loop step is one step of the walk, and the error term stays within adx + ady |
| `Framebuffer.LineShape` | kernel/drivers/lfb.c:174-186 | starts at the first endpoint, reaches the second after exactly max(adx, ady) steps and not before, moves to 8-neighbours, and stays within half a pixel |
| `Framebuffer.WalkWithin` | kernel/drivers/lfb.c:174-186 | neither coordinate overshoots the endpoint |
| `Framebuffer.Isqrt` | kernel/drivers/lfb.c:148 | the integer square root, 0 for negative input |
| `Framebuffer.CellsApart` | kernel/drivers/lfb.c:113 | different pixels have different indices |
| `Framebuffer.SameCellsSameImage` | kernel/drivers/lfb.c:113 | every index belongs to a pixel, so equal pixels mean an equal framebuffer |
| `Framebuffer.Screen.Pixel` | kernel/drivers/lfb.c:112-114 | exactly that pixel changes, if it is on screen |
| `Framebuffer.Screen.Fill` | kernel/drivers/lfb.c:121-130 | exactly the visible pixels of the rectangle change |
| `Framebuffer.Screen.BlitGet` | kernel/drivers/lfb.c:212-219 | the rectangle's pixels, 0 where off screen |
| `Framebuffer.Screen.BlitPut` | kernel/drivers/lfb.c:221-228 | exactly the visible pixels of the rectangle change, to the buffer's |
| `Framebuffer.Screen.Line` | kernel/drivers/lfb.c:174-186 | terminates after max(adx, ady) + 1 pixels and changes exactly the visible ones among them |
| `Framebuffer.Screen.Disc` | kernel/drivers/lfb.c:167-172 | exactly the visible pixels at distance at most r change |
| `DesktopCursor.Cursor.HideCursor` | kernel/gui/desktop.c:47-49 | the framebuffer is exactly the base image again |
| `DesktopCursor.Cursor.ShowCursor` | kernel/gui/desktop.c:50-60 | each visible pixel of the cursor is white for an X, outline for an o and the base image otherwise; elsewhere the base image shows |
| `DesktopCursor.Cursor.DrawArrow` | kernel/gui/desktop.c:53-58 | exactly the inked, visible pixels change, each to its colour |
| `DesktopCursor.Cursor.Drive` | kernel/gui/desktop.c:47-60 | over any sequence of showing and hiding at any positions the base image is never lost |
| `Ramfs.WriteRefines` | kernel/fs/ramfs_core.c:48-62 | a write binds the name, or fails exactly when the arena lacks room or a new name meets a full table and changes nothing; count is the number of names |
| `Ramfs.ReadBackExactly` | kernel/fs/ramfs_core.c:9-13 | what was just written is read back if and only if the name has at most 31 characters |
| `Ramfs.LongNameIsCutTo31` | kernel/fs/ramfs_core.c:9-13 | a longer name is kept under its first 31 characters, readable there unless an older file has that name |
| `Ramfs.ReadIsLookup` | kernel/fs/ramfs_core.c:64-69 | reading is looking up the map |
| `Ramfs.OldBytesKept` | kernel/fs/ramfs_core.c:54-57 | bytes below the bump pointer never change |
| `Ramfs.RunRefinesMap` | kernel/fs/ramfs_core.c:15-69 | over any run of writes, refused ones included, the file system behaves as a finite map with a byte budget |
| `Ramfs.Ram.constructor` | kernel/fs/ramfs_core.c:15-24 | no file, nothing spent |
| `Ramfs.Ram.Find` | kernel/fs/ramfs_core.c:26-30 | the first used slot with that stored name, or -1 |
| `Ramfs.Ram.AllocSlot` | kernel/fs/ramfs_core.c:32-46 | the file's slot, a new one with the truncated name, or -1 |
| `Ramfs.Ram.Write` | kernel/fs/ramfs_core.c:48-62 | performs exactly a write; below 2 GiB it answers the length exactly when it succeeds, else -1 |
| `Ramfs.Ram.ReadFile` | kernel/fs/ramfs_core.c:64-69 | offset and length of the bytes the map holds |

## Left out

- KernelHeap.Heap.Free: an address that is not a live payload but whose bytes look like an in-use header is outside the model; the header checks cannot tell it apart.
- KernelHeap.Heap.Realloc: likewise for any address behind the magic, freed blocks included, since it does not test the free flag.
- EventRing.Ring.Wait: the ring does not change while it polls; interleaved posting is covered by the step machine, and the poll count is a parameter.
- HidHandoff.SilentForGood: starts from the state after the drop; enumeration itself, where wait_event can drop another device's event, is not modelled.
- UsbSystem.ReportsDelivered: runs start after enumeration, with distinct slots and no control transfer pending.
- CommandRing.RequestsMayPush: that the ring is drained when a request starts is its premise. A wait that times out, or a control transfer whose wait is satisfied by another device's transfer event, returns before that; neither is modelled.
- RingOverrun.StallMayEnd: what later pushes lose is not counted; larger rings need a whole lap of pushes.
- FrameBitmap.Alloc: `total + 7` is not wrapped at 2^32; the manager's totals are at most 0x100000.
- Ramfs.WriteRefines: names of 1 to 31 characters (longer ones can never be read back), and no length that passes 2^32 together with the bytes spent; the caller's data would have to fill almost all of the address space.
- Ramfs.RunRefinesMap: the same names and lengths.
- Framebuffer.Screen.Line: coordinates are unbounded; the bound on the error term says when 32-bit arithmetic suffices.
- Scheduler.BoundedWaiting: two tasks under one id are treated as one by block and exit, as in the source.
- ContextSwitch.Cpu.TaskInit: the `stack` and `stack_sz` fields, byte addresses inside a word, and the flags register.
- PCI, register access, port resets, descriptors and the rest of xHCI enumeration; HID key tables and mouse decoding.
- VGA, serial, interrupt controllers, timers, descriptor tables, keyboard and mouse ports.
- CR0 and CR3 writes and the TLB; ring 3 entry and exit.
- `usable_bytes`, `mem_lower_kb` and `mem_upper_kb`; printing of the memory map.
- `lfb_clear`, gradients, rounded rectangles, text and scrolling; window, dock and application drawing.
- The shell, `kprintf`, string helpers, the AI and feature registries and the system call table.
