# GopherOS, modelled and verified

GopherOS is a small 32-bit x86 kernel. This project models the parts of it whose guarantees
span several functions or files, and proves those guarantees with Dafny.

The modules follow the source files:

- **Memory**: the page bitmap (`Pages`), pools, regions and kmalloc (`Heap`, `HeapRuns`,
  `HeapLaws`), and the same code updating its state in place (`Memory`,
  `Pages.PageAllocator`).
- **Processes and address spaces**: page tables (`Paging`), the ELF loader (`Elf`,
  `ElfProcess`), the file format by itself (`ElfFile`) and the image a written file gives
  (`ElfImage`), the ownership of slots, handles and pages (`Lifetime`), the invariant over
  all of them (`Isolation`, `IsolationRuns`), what each operation comes to (`ProcLaws`), and
  the process table in place (`ProcessTable`).
- **Scheduling and interrupts**: the round-robin scheduler (`Scheduler`), the interrupt latch
  (`Interrupts`), `context_switch` as a stack machine (`Context`), the keyboard's ring buffer
  (`Keyboard`) and layout (`KeyMap`), and process code interleaved with interrupts instruction
  by instruction (`Interleave`).
- **Filesystem**: the node table as a tree (`FsTree`), paths (`FsPath`), the operations
  (`FsOps`, `FsLaws`, in place in `FileSystem`) and exactly when they succeed (`FsOutcomes`), the
  sector stream (`SectorStream`), the disk image (`FsImage`) and its bytes (`FsDisk`).
- **Network**: the Internet checksum (`Checksum`), packets as bytes (`Segments`) and as the
  RFCs lay them out (`Wire`), the TCP state machine (`Tcp`, in place in `TcpStack`) and its
  answers (`TcpAnswers`).
- **Line editor**: string functions (`Strings`), the text screen (`Vga`), the ideal editor
  (`IdealLine`), and `kb_readline` on its buffer and screen (`Editor`).

Every module that models code changing state comes in two layers: functions on values, which
say what an operation does to a state, and classes whose methods run the source's loops and
assignments and are proved equal to those functions. The theorems - invariants over every run,
round trips, refinements - are lemmas about the functions; what a function computes is also said
without it, in terms of what was there before the call.

Where the two copies of a file differ, the root copy is modelled, except that the scheduler
and context preservation follow `kernel/process.c`.

## What the proofs found

- `fs_rename` has no guard against moving a directory below itself. A rename keeps the tree
  exactly when it fails or the old path's components are not a proper prefix of the new one's
  (`FsLaws.RenameKeepsTreeIff`, `FsLaws.RenameCanCutOff`).
- TCP acknowledges bytes it could not buffer (`TcpAnswers.OverflowIsAcked`). Delivery stays in
  order, and acknowledgements true, exactly as long as each accepted segment fits the free part
  of the buffer (`Tcp.HandleInOrderIff`, `TcpAnswers.AcksAreTrue`, `Tcp.OverflowBreaksOrder`,
  `Tcp.OverflowHappens`).
- TCP takes a FIN whatever its sequence number. An empty `tcp_recv` after it means that the whole
  stream was delivered exactly if the FIN carried the number expected (`Tcp.EndOfStreamIff`); one
  that overtakes data ends the stream early (`Tcp.FinCanOvertake`).
- The comment at `kernel/process.c:356-358` says `sti; hlt` cannot lose an interrupt.
  Interrupts are already enabled there. The processor halts over a process it could wake exactly
  if a line that process waits for is latched (`Interleave.HaltOversleepsIff`), which comes about
  exactly if the interrupt struck after the bottom halves of that round had passed its line
  (`Interleave.OversleepsIffLate`; a run from boot: `Interleave.OversleepIsReachable`). The
  wake-up is late, never lost (`Interleave.LateNotLost`).
- `process.c:472-473` calls `context_switch` even when it picked the running process. That is
  harmless exactly if the process called from the stack depth of its last suspension
  (`Context.SelfSwitchPreservesIff`, `Context.SelfSwitchLosesContext`).
- `kb_readline` and the screen agree after every key exactly if the start position and
  `maxlen` together fit the text area (`IdealLine.ShowableIff`).
- A region is smaller than asked for exactly when 32-bit arithmetic wraps
  (`Heap.RegionLargeEnoughIff`, `Heap.RegionBumpSoundIff`,
  `Heap.SizesCanWrap`).
- The stacks of a ring-3 process lie in its own region exactly if the size asked for, header
  included, does not wrap (`Lifetime.OwnStacksIff`, `Lifetime.StackSizeCanWrap`).
- The branch of `proc_create_ring3` that would leave a READY slot with a destroyed region is
  dead (`Isolation.NoHalfMadeProcess`).
- An `fs_create`, `fs_mkdir` or `fs_rename` that runs out of slots is not undone: the directories
  it made on the way stay and leave no slot free. The first two report ENOSPC if just the slot for
  the last name was missing; otherwise the error is EINVAL (`FsOutcomes.CreateSucceedsIff`,
  `FsOutcomes.MkdirSucceedsIff`, `FsOutcomes.SplitExact`).
- A loadable ELF segment of no pages makes `proc_load_elf` fail with ENOMEM: the request for zero
  pages is never granted (`ElfImage.WrittenOutcome`, `HeapLaws.PagesRefusedIff`).

## Model

| member | source | states |
|---|---|---|
| Pages.AllocSoundAndComplete | memory.c:37-56 | page_alloc from any hint: a non-zero page starts a run that was wholly free and is now marked, nothing else changing; zero for a positive count means no free run of that length exists anywhere; page 0 is never handed out |
| Pages.AllocIsNextFit | memory.c:37-56 | the run taken is the lowest free one from the hint on, or, if there is none there, the lowest of all |
| Pages.FreedIsReusable | memory.c:37-63 | after page_free of n pages a request for n succeeds from any hint, and freeing what was just taken restores the bitmap |
| Pages.PageAllocator.RunIsFree | memory.c:42-44 | the inner scan answers whether the whole run is free |
| Pages.PageAllocator.Alloc | memory.c:37-56 | the in-place next-fit search with its self-call from hint 0 terminates and is the specified allocation |
| Pages.PageAllocator.Free | memory.c:58-63 | page_free clears exactly its run and pulls the hint back |
| Memory.Allocators.Bootstrap | memory.c:136-142 | the block handed out lies in the bootstrap arena, behind every earlier one, is as large as asked for and 8-aligned, as long as the arena has room for it |
| Memory.Allocators.PoolEnsureBacking | memory.c:119-128 | a pool gets its pages and its empty bitmap on first use only, and says whether it has them |
| Memory.Allocators.AllocFromPool | memory.c:144-160 | the lowest unused slot is taken and its address returned; 0 if there is none |
| Memory.Allocators.FreeToPool | memory.c:162-174 | the slot an address lies in becomes unused; addresses of no pool change nothing |
| Memory.Allocators.Malloc | memory.c:233-240 | kmalloc serves from the smallest size class that fits and fails beyond the largest |
| Memory.Allocators.MFree | memory.c:242-245 | kfree releases the slot of a non-NULL pointer |
| Memory.Region.Alloc | memory.c:206-218 | region_alloc hands out the next aligned stretch, in 32-bit arithmetic, or NULL with the region unchanged |
| Memory.Region.Destroy | memory.c:220-223 | region_destroy gives back exactly the region's pages |
| Heap.RegionLargeEnoughIff | memory.c:188-204 | a region granted is as large as asked for exactly when adding its header did not wrap 32 bits |
| Heap.RegionBumpSoundIff | memory.c:206-218 | a block granted lies in its region and is as large as asked for exactly when rounding and adding the size did not wrap |
| Heap.SizesCanWrap | memory.c:188-218 | a request of 2^32 - 1 bytes is granted far too little by both |
| HeapRuns.LiveBlocksApart | memory.c:144-223 | in every state that keeps the invariant, distinct live blocks of pages, regions and pools never overlap and lie in the arena past page 0 |
| HeapRuns.NewExtentLive | memory.c:37-204 | page_alloc makes exactly the new run live, region_new no block yet; the pages either takes share no byte with any block live before |
| HeapRuns.AllocInRegionInv | memory.c:206-218 | a region_alloc whose size does not wrap when rounded and added keeps the invariant, and its block is large enough |
| HeapRuns.AllocInRegionLive | memory.c:206-218 | and makes exactly that block live, which shares no byte with any block live before |
| HeapRuns.DropExtentKeeps | memory.c:58-223 | page_free and region_destroy keep the invariant and make exactly what the pages held dead |
| HeapRuns.BackingDoesNotPanic | memory.c:119-142 | backing one more pool never exhausts the bootstrap arena: the bitmaps of all unbacked pools were accounted for |
| HeapRuns.AllocObjectKeeps | memory.c:233-240 | kmalloc keeps the invariant, does not panic, and a block it returns is new, large enough and the only change to what is live |
| HeapRuns.KfreeFindsSlot | memory.c:162-174 | a slot's address lies in its own pool and no other, and kfree clears that very slot |
| HeapRuns.KfreeKeeps | memory.c:242-245 | kfree of a live block keeps the invariant and makes exactly that block dead |
| HeapRuns.FreedObjectIsReusable | memory.c:144-174 | right after kfree a kmalloc of the same class succeeds |
| HeapRuns.StepKeepsInv | memory.c:37-245 | every legal page, region, kmalloc and kfree call keeps the invariant and does not panic |
| HeapRuns.StepHandsOut | memory.c:37-245 | a call makes live exactly the block it hands out, at least as large as asked for and sharing no byte with any block live before, and makes dead exactly what it frees |
| HeapRuns.RunKeepsBook | memory.c:37-245 | over any run the outstanding requests, each an entry of its own, hold exactly the live blocks, each at least as large as asked for, and no two of them share a byte |
| HeapRuns.BootInv | memory.c:87-142 | the invariant holds after memory_init, and all eight pool bitmaps together need 2040 of the 65536 bootstrap bytes |
| HeapRuns.HeapDisjointOverRuns | memory.c:37-245 | after any run of calls from boot in which callers free only what they hold, no two outstanding requests share a byte, so none was given a block still held; they hold exactly the live blocks, each large enough and in bounds, and the next kmalloc does not panic |
| HeapLaws.PoolRefusesIff | memory.c:119-160 | pool_alloc returns NULL exactly if every piece of the pool's 16384 bytes is live, or the pool has no pages and no four free ones in a row exist |
| HeapLaws.KmallocRefusesIff | memory.c:144-240 | in every state that keeps the invariant kmalloc returns NULL exactly if no class is large enough, or the smallest that fits has all its pieces live, or has no pages and no four in a row are free; otherwise the block is of that class |
| HeapLaws.KmallocOverRuns | memory.c:37-245 | so it is after any run from boot, where the classes are still 16 to 2048 bytes: kmalloc fails exactly above 2048 bytes and for an exhausted class |
| HeapLaws.PagesRefusedIff | memory.c:37-56 | page_alloc hands out nothing exactly if none were asked for or no run that long is free |
| HeapLaws.RegionMadeIff | memory.c:188-204 | region_new takes the fewest pages that hold header and bytes, and fails exactly if no run of that many is free, as long as the size does not wrap |
| HeapLaws.ChunkRefusedIff | memory.c:206-218 | region_alloc fails exactly if the size rounded up to 8 does not fit behind what is taken; otherwise the block starts there |
| Paging.FreshSpaceShowsOnlyCode | paging.c:64-133 | an address space handed out anew, recycled or not, shows ring 3 the shared code pages and nothing of a former owner |
| Paging.GrantReach | paging.c:82-95 | a grant makes reachable from ring 3 at most the frames behind the pages it names |
| Paging.AddressSpaces.FillIdentity | paging.c:64-75 | the nested loops map every page to itself, for the supervisor only |
| Paging.AddressSpaces.New | paging.c:116-128 | the first unused space is taken, reset to the identity map and opened for shared code; -1 if all are in use |
| Paging.AddressSpaces.Free | paging.c:130-133 | only the space of a valid handle is released |
| Paging.AddressSpaces.GrantAccess | paging.c:143-145 | the loop changes the user bit of exactly the pages the range touches, in the one space named |
| Paging.AddressSpaces.Map | paging.c:166-177 | one page of one space is redirected; pages past the tables are refused |
| Elf.FittingPages | process.c:268-270 | for a segment below 32 MB the 32-bit page count is exact and covers the file part |
| Elf.StandardHeadersInFile | process.c:230-260 | with program headers of at least 32 bytes each an accepted file contains all headers the loader reads |
| Elf.SegmentInPlace | process.c:259-288 | a segment that loads is in place: file bytes, zero fill, user access and write permission at every address of its pages |
| Elf.SegmentStays | process.c:259-288 | a segment in place stays in place while segments on other pages load |
| Elf.LoadOnlyTakes | process.c:259-288 | loading only takes free pages and only maps pages it took |
| Elf.LoadedImage | process.c:259-288 | when the segment loop succeeds all loadable segments are in place at once |
| ElfFile.FileIsWritten | elf.h:31-64 | header, program headers and contents, each field little-endian at its offset, make a file that says where everything is; written independently of the loader |
| ElfImage.WrittenImage | process.c:218-331 | for every such file, after a successful proc_load_elf every address of a loaded segment's pages shows the byte written for it, or zero, to ring 3, and is writable exactly if the segment was written writable |
| ElfImage.WrittenOutcome | process.c:218-331 | on such a file proc_load_elf fails exactly if every process slot is taken (EBUSY) or the page allocator cannot meet the requests of segments and region in order (ENOMEM) |
| ElfImage.OthersRefused | process.c:218-234 | what is no 32-bit i386 executable with its program header table in the file is EINVAL and changes nothing |
| ElfImage.LoadedFields | process.c:236-331 | the lowest unused slot becomes a READY ring-3 process with the next pid and a space nobody held; no other slot or space changes |
| ElfImage.MalformedRefused | process.c:262-267 | success means that no loadable segment asks for contents the file does not have or more than fit its memory, and an executable is EINVAL only if one does |
| ElfImage.FailedLoad | process.c:218-296 | a failed load leaves every slot in its state, those in use untouched, and the same spaces in use with what they had |
| ElfImage.LoadWritesFree | process.c:275-288 | loading, whether it succeeds or not, writes only to pages that were free, which are then taken, and frees none |
| ElfProcess.ElfImageIsCorrect | process.c:218-331 | after a successful proc_load_elf every address of a segment's pages, read through the new page table, is the file's byte within the file part and zero elsewhere, open to the user, writable exactly if the segment is, whatever the process's own stacks hold |
| ProcessTable.Kernel.FindSlot | process.c:69-75 | the lowest unused process slot, -1 if none |
| ProcessTable.Kernel.Spawn | process.c:68-113 | proc_create in place, error returns included, on the process table and the page allocator |
| ProcessTable.Kernel.SpawnRing3 | process.c:132-199 | proc_create_ring3 in place, with its failure branch as written |
| ProcessTable.Kernel.MapSegment | process.c:285-287 | the mapping loop of a segment maps a run of virtual pages to consecutive frames, wrapping at 4 GB |
| ProcessTable.Kernel.LoadOne | process.c:259-288 | one turn of the segment loop over memory, page allocator and page table |
| ProcessTable.Kernel.SpawnElf | process.c:218-331 | proc_load_elf in place, from header checks to the granted region, with every failure branch |
| ProcessTable.Kernel.ExitCurrent | process.c:344-356 | proc_exit closes a ring-3 process's space and leaves a zombie |
| ProcessTable.Kernel.KillPid | process.c:385-410 | proc_kill refuses the running process, forces others out, frees region and slot |
| Lifetime.StacksInsideIff | process.c:144-151 | both stacks lie in the region granted for them, the user's above the kernel's, exactly if the size asked for, region header included, does not wrap 32 bits |
| Lifetime.OwnStacksIff | process.c:132-331 | so it is for every process proc_create_ring3 or proc_load_elf creates |
| Lifetime.StackSizeCanWrap | process.c:144-151 | a user stack of 2^32 - 4096 bytes is granted in three pages, its top at the bottom of the region |
| ProcLaws.CreateOutcome | process.c:68-113 | proc_create fails exactly if every slot is taken or no six pages in a row are free, and otherwise makes one READY process in the lowest unused slot |
| ProcLaws.CreateRing3Outcome | process.c:132-199 | proc_create_ring3 fails exactly if every slot is taken or its region finds no room, and otherwise takes one slot and one space nobody held |
| ProcLaws.OwnRegionOpen | process.c:176-197 | every page of the new process's own region is open to ring 3 in its space, under its own address |
| ProcLaws.ExitOutcome | process.c:344-356 | proc_exit makes the current process, and nobody else, a zombie without a space, its region kept until it is reaped |
| ProcLaws.KillOutcome | process.c:385-410 | proc_kill returns true exactly if the process with this pid is READY, BLOCKED or a zombie; then exactly its slot, its region's pages and its space are free, and otherwise nothing changes |
| Isolation.ProcessesAreIsolated | paging.c:64-177 | two live processes reach no common frame from ring 3 but shared code; every other frame one reaches is a page allocated to it alone |
| Isolation.SpaceForEverySlot | process.c:132-199 | pigeonhole: whenever a process slot is free an address space is free |
| Isolation.NoHalfMadeProcess | process.c:188-193 | a failing proc_create_ring3 leaves no new live slot and no space taken, so the branch that would do so is dead |
| IsolationRuns.CreateRing3Keeps | process.c:132-199 | proc_create_ring3 keeps the handle bijection, page ownership and confinement |
| IsolationRuns.LoadElfSucceeds | process.c:218-331 | a successful proc_load_elf keeps them |
| IsolationRuns.LoadElfFails | process.c:253-296 | so does every failing one, after segments were already loaded and mapped |
| IsolationRuns.ExitKeeps | process.c:344-356 | so does proc_exit |
| IsolationRuns.KillKeeps | process.c:385-410 | so does proc_kill, for ready, blocked and zombie processes |
| IsolationRuns.StepKeepsInv | process.c:68-410 | every operation on processes, and the kernel's own page use, keeps the invariant |
| IsolationRuns.IsolationOverRuns | process.c:68-410 | isolation of any two live processes after every run of create, load, exit, kill and rescheduling from boot |
| IsolationRuns.SpacesSufficeOverRuns | process.c:236-256 | over every run, creating and loading never fail for want of an address space once they found a slot |
| Context.Processor.ContextSwitch | isr.s:168-179 | the instructions, one by one, save the old context on its stack and load the new one |
| Context.Processor.BuildFrame | kernel/process.c:87-104 | the ten words proc_create pushes on a new stack |
| Context.SwitchParks | isr.s:168-174 | suspending parks the registers and the return address on the process's own stack |
| Context.CreateParks | kernel/process.c:87-104 | proc_create parks the first context on the new process's own stack |
| Context.NextKeepsSound | kernel/process.c:67-336 | computing, switching, creating and killing keep the stacks of live processes apart, with each saved stack pointer outside them |
| Context.ParkedStays | kernel/process.c:67-336 | neither another process computing, nor the creation or killing of others, nor any switch among others touches a parked context |
| Context.SwitchResumes | isr.s:175-179 | switching to a parked context restores exactly it |
| Context.ContextPreserved | kernel/process.c:310-336 | over every run of computing, switching, creating and killing, a process that gives up the CPU and is not killed next resumes with the general registers, stack pointer and return address it had |
| Context.FirstDispatch | kernel/process.c:87-104 | the frame of proc_create makes the first dispatch start at its entry with zero registers and an empty stack, whatever happened between creation and dispatch |
| Context.SelfSwitchPreservesIff | process.c:459-474 | when the newer scheduler picks the running process itself, its context survives exactly if it called from the stack depth of its last suspension |
| Context.SelfSwitchLosesContext | process.c:459-474 | a run that loses the context: create a process, switch to it and back, go deeper on the stack, and be picked oneself |
| Scheduler.PickIsNearest | kernel/process.c:316-320 | the search finds the READY process at the least cyclic distance past the current one |
| Scheduler.StepKeepsSafe | kernel/process.c:310-379 | a RUNNING process is the current one, kept by every scheduling step |
| Scheduler.RunKeepsSafe | kernel/process.c:310-379 | hence in every state of every run |
| Scheduler.DispatchComesNearer | kernel/process.c:316-337 | each dispatch of somebody else brings a READY process strictly nearer |
| Scheduler.BoundedWaiting | kernel/process.c:310-361 | a process that stays READY sees fewer than MAX_PROCESSES other dispatches, whatever is created, killed, blocked or woken meanwhile |
| Scheduler.RoundTold | kernel/process.c:310-361 | in terms of the processes' states: the READY process next in turn is picked; with none READY a RUNNING caller goes on; else the processor waits if somebody is BLOCKED, and stops if nobody is |
| Scheduler.DispatchTold | kernel/process.c:322-337 | the process picked runs, the one giving way is READY if it was RUNNING, all others are as they were |
| Scheduler.ProcTable.YieldRound | kernel/process.c:313-354 | one round of proc_yield in place, equal to the round RoundTold and DispatchTold speak of |
| Scheduler.ProcTable.SleepOn | kernel/process.c:363-368 | the current process blocks on the event; without one nothing happens |
| Scheduler.ProcTable.WakeupAll | kernel/process.c:370-379 | the loop wakes exactly the processes blocked on the event |
| Interrupts.BottomHalvesWake | interrupt.c:42-51 | running the bottom halves wakes exactly the processes blocked on the event of some latched line |
| Interrupts.IrqTable.Register | interrupt.c:21-30 | registering sets one line's event and clears its flag |
| Interrupts.IrqTable.Latch | interrupt.c:33-39 | the interrupt latches its line's flag; lines that do not exist are ignored |
| Interrupts.IrqTable.RunBottomHalves | interrupt.c:42-51 | in place: all flags end clear and the process table is woken accordingly |
| Keyboard.PushAppends | keyboard.c:63-68 | a pushed character goes behind those waiting, or is dropped with one cell left; the oldest unread one is never overwritten |
| Keyboard.PushRefusesIff | keyboard.c:63-66 | a character is refused exactly when RING_SIZE - 1 wait |
| Keyboard.AdvanceTakes | keyboard.c:117-119 | advancing the tail takes the oldest character and no other |
| Keyboard.TranslateDeliverable | keyboard.c:46-98 | every scan code yields nothing or a printable character, tab, backspace, newline or editing key; never a carriage return |
| KeyMap.RowKey | keyboard.c:46-60 | each key of the four rows of the US layout gives its character, by the state of shift |
| KeyMap.OtherKeys | keyboard.c:72-93 | backspace, tab, Enter, asterisk and space bar; the arrows behind E0; copy and paste with Ctrl |
| KeyMap.SilentKeys | keyboard.c:75-98 | shift and Ctrl follow their keys; every other key going up, and keys without a character, change nothing |
| KeyMap.TextIsTyped | keyboard.c:46-98 | typing any text key by key, shift held where needed, delivers exactly the text |
| Keyboard.Driver.PushChar | keyboard.c:63-68 | kb_push in place |
| Keyboard.Driver.TopHalf | keyboard.c:72-98 | kb_top_half in place: modifiers and ring after a scan code |
| Keyboard.Driver.ReadTail | keyboard.c:117 | the first half of kb_getchar reads the oldest waiting character |
| Keyboard.Driver.AdvanceTail | keyboard.c:118 | its second half takes that character off those waiting |
| Interleave.NextKeepsInv | kernel/process.c:310-379 | every instruction of kb_getchar, proc_sleep_on, proc_yield and the bottom halves, every call and every interrupt between them keeps the no-lost-wake-up and ring invariants |
| Interleave.WakeupsNeverLost | keyboard.c:113-120 | in every interleaving from boot, a process asleep on the keyboard while a character waits has the flag latched, or the bottom half that took the flag has still to come past it |
| Interleave.RingIsFifo | keyboard.c:63-120 | in every interleaving the characters handed out followed by those waiting are those accepted, and one is refused only with RING_SIZE - 1 waiting |
| Interleave.SleeperIsWoken | interrupt.c:42-51 | such a sleeper is READY after the next complete irq_run_bottom_halves, whatever interrupts strike during it |
| Interleave.ScanTold | kernel/process.c:310-361 | the search of proc_yield: a READY process resumes where it stood; with none, a RUNNING caller goes on with nothing changed; else the processor is to wait exactly if somebody is BLOCKED |
| Interleave.RestsOnlyIdle | kernel/process.c:342-361 | in every interleaving from boot the processor waits only if nobody is READY or RUNNING and somebody is BLOCKED, and is stopped only if nobody is any of these |
| Interleave.GetCharTakes | keyboard.c:113-120 | kb_getchar with characters waiting hands out the oldest and changes nothing else |
| Interleave.GetCharSleeps | keyboard.c:113-116 | with none waiting it puts its caller, and nobody else, to sleep on the keyboard and yields |
| Interleave.HaltOversleepsIff | kernel/process.c:356-359 | in every state about to execute sti; hlt, the halted processor leaves somebody asleep whom the bottom halves would wake exactly if some latched line is awaited; with no flag set it leaves nobody, and no reader sleeps over a waiting character |
| Interleave.LatchedIffLate | interrupt.c:42-51 | a line is latched at the end of an idle round exactly if its interrupt struck after the bottom halves had passed it |
| Interleave.OversleepsIffLate | kernel/process.c:342-359 | hence the processor halts over a wakeable sleeper exactly if an interrupt some sleeper waits for struck after the bottom halves of that round had passed its line |
| Interleave.LateNotLost | kernel/process.c:356-359 | any interrupt ends the halt, and the bottom halves it leads to make every reader asleep over a waiting character READY |
| Interleave.HaltCanOversleep | kernel/process.c:356-359 | one way it comes about: a key struck just before sti; hlt leaves the processor halted with the flag latched and its reader asleep |
| Interleave.OversleepIsReachable | kernel/process.c:356-359 | a run from boot really leads to that state |
| FsPath.ScanIsComponents | filesystem.c:63-78 | the character-by-character scan delivers exactly the path's non-empty components, cut to 31 characters |
| FsPath.JoinedComponents | filesystem.c:63-78 | names written with slashes between them are the path's components, each cut to its first 31 bytes |
| FsPath.ComponentsGood | filesystem.c:63-78 | components are non-empty, short enough, free of slashes and NULs |
| FsPath.PathIsUnique | filesystem.c:47-80 | no two lists of names denote the same node |
| FsPath.EveryNodeHasAPath | filesystem.c:47-80 | every live node of a well-formed tree is denoted by some list of names |
| FsPath.WalkSurvives | filesystem.c:47-80 | names keep denoting the same node while the nodes on the way stay |
| FsOps.SplitKeeps | filesystem.c:85-129 | splitting keeps the tree, adds only directories, and the directory part then denotes the returned parent |
| FsLaws.CreateResolves | filesystem.c:131-166 | fs_create keeps the tree; on success the path denotes the returned empty file, and every path that resolved still denotes the same node |
| FsLaws.MkdirResolves | filesystem.c:168-187 | fs_mkdir keeps the tree; on success the path denotes a new childless directory, and other paths are unmoved |
| FsOutcomes.CreateSucceedsIff | filesystem.c:131-166 | fs_create succeeds exactly if the path has names, no file stands in the way, and it denotes a file, or nothing while enough slots are free for the missing directories and the file; one slot too few is ENOSPC, everything else EINVAL |
| FsOutcomes.CreateLeaves | filesystem.c:131-166 | an existing file is emptied and its mtime set; a new one has both times set and takes a free slot, as do the missing directories; every other node is untouched |
| FsOutcomes.MkdirSucceedsIff | filesystem.c:168-187 | fs_mkdir succeeds exactly if the path has names, no file stands in the way, it denotes nothing, and slots are free for all that is missing; with its error codes |
| FsOutcomes.MkdirLeaves | filesystem.c:168-187 | the new directory and those missing before it are dated and take free slots; every other node is untouched |
| FsOutcomes.SplitExact | filesystem.c:85-129 | splitting makes exactly the missing directories and fails exactly if a file stands in the way or slots run out; on failure the directories made so far stay |
| FsLaws.RmdirResolves | filesystem.c:189-203 | fs_rmdir succeeds exactly for an empty directory other than the root, and then exactly the paths denoting it stop resolving |
| FsLaws.DeleteResolves | filesystem.c:267-281 | fs_delete succeeds exactly for a file, and then exactly the paths denoting it stop resolving; ENOENT for nothing or the root, EINVAL for a directory |
| FsLaws.AppendKeeps | filesystem.c:205-221 | fs_append extends one file at its end and sets its mtime, touches no other node and moves no path |
| FsOps.AppendSucceedsIff | filesystem.c:205-221 | an append succeeds exactly to a live file within the size limit, if the region has room for the whole grown file rounded up to 8 bytes, and takes exactly that room; EINVAL, ENOSPC and ENOMEM otherwise |
| FsLaws.RenameKeepsTreeIff | filesystem.c:283-298 | fs_rename keeps the tree exactly when it fails or the old components are no proper prefix of the new ones |
| FsLaws.RenameCanCutOff | filesystem.c:283-298 | renaming /a to /a/b succeeds and leaves a unreachable |
| FsOutcomes.RenameSucceedsIff | filesystem.c:283-298 | fs_rename is ENOENT exactly if the old path denotes nothing or the root, and succeeds exactly if further the new path has names, no file stands in its way, it denotes nothing, and slots are free for the missing directories |
| FsOutcomes.RenameLeaves | filesystem.c:283-298 | one node has a new parent, name and mtime; only missing directories are added, and every other node is untouched |
| FsLaws.RenameResolves | filesystem.c:283-298 | after a rename that keeps the tree the new path denotes the moved node and the old one nothing |
| FsLaws.RenameLeavesOthers | filesystem.c:283-298 | paths not through the renamed node lead where they led |
| FsLaws.RunKeepsTreeIff | filesystem.c:85-298 | over every run of public operations - fixed root, live parent directories, unique legal sibling names, every node reaching the root - the tree holds throughout exactly if no rename to below itself succeeds |
| FsLaws.RunKeepsTree | filesystem.c:85-298 | so it holds after every run without such a success |
| FileSystem.FileTable.constructor | filesystem.c:31-37 | fs_init leaves just the root |
| FileSystem.FileTable.ChildOf | filesystem.c:47-54 | the lowest-numbered live child of that name, -1 if none |
| FileSystem.FileTable.Resolve | filesystem.c:58-80 | the character loop returns the node the path's components denote |
| FileSystem.FileTable.SplitParent | filesystem.c:85-129 | the character loop, one component behind, returns parent and leaf and makes the missing directories |
| FileSystem.FileTable.Create | filesystem.c:131-166 | fs_create in place, every error return included |
| FileSystem.FileTable.Mkdir | filesystem.c:168-187 | fs_mkdir in place, every error return included |
| FileSystem.FileTable.Rmdir | filesystem.c:189-203 | fs_rmdir in place |
| FileSystem.FileTable.Append | filesystem.c:205-221 | fs_append in place, the grown copy allocated from the region, with every error return |
| FileSystem.FileTable.Delete | filesystem.c:267-281 | fs_delete in place |
| FileSystem.FileTable.Rename | filesystem.c:283-298 | fs_rename in place |
| SectorStream.WriteStream.Flush | filesystem.c:315-321 | a partly filled sector is padded with zeros; an empty one is not written |
| SectorStream.WriteStream.Write | filesystem.c:323-334 | however data is cut into calls, the stream is its concatenation |
| SectorStream.WriteStream.Close | filesystem.c:315-334 | after the last flush the disk holds exactly the concatenation, padded to a sector boundary |
| SectorStream.ReadStream.Fill | filesystem.c:336-341 | the next sector is fetched, failing exactly past the disk's end |
| SectorStream.ReadStream.Read | filesystem.c:343-357 | the next bytes of the disk, however earlier reads were cut; fails exactly if they run past the end |
| FsImage.Save | filesystem.c:369-416 | fs_save leaves on the disk exactly the table's image, padded, and nothing else changed |
| FsImage.LoadFrom | filesystem.c:418-468 | fs_load in place: result code, table and region use for any disk contents |
| FsDisk.SavedLayout | filesystem.c:308-416 | the disk after fs_save, byte by byte: from sector 2048 on magic, version and counts, 56 bytes for each live node in index order with every field at its offset, then the contents in the same order; everything before is untouched |
| FsDisk.ForeignDisk | filesystem.c:418-441 | fs_load on any disk: too short is ENOENT; other magic, other version, cut-off header or too many nodes are EINVAL, and then table and region are untouched; the root is never taken from the disk |
| FsDisk.AnyImage | filesystem.c:433-468 | fs_load on any disk with the header of an image: a record cut off or naming no slot is EINVAL and takes nothing of the region; otherwise every node but the root is what the last record for it tells, field by field, or blank without one |
| FsImage.SaveLoadRoundTrip | filesystem.c:369-468 | fs_save then fs_load succeeds exactly if the region has room for the 8-aligned sizes, takes exactly that room, and then every node is back at its index with all its fields, and no others |
| FsImage.RestoredTree | filesystem.c:418-468 | the restored tree is well-formed and every path leads where it led |
| Strings.MemMove | string.c:16-25 | memmove within a buffer gives the bytes as they were before, for every overlap |
| Strings.MemCpy | string.c:9-14 | memcpy puts down the bytes and leaves the rest |
| Strings.StrLen | string.c:27-31 | the number of bytes before the first NUL |
| Strings.StrNCpy | string.c:33-38 | strncpy fills the buffer and a string that fits is read back unchanged |
| Strings.StrCmp | string.c:40-43 | zero exactly for equal strings, and otherwise the sign of the first difference |
| Checksum.Partial | netdefs.h:71-80 | the loop adds the big-endian words, an odd last byte padded, modulo 2^32 |
| Checksum.Fold | netdefs.h:64-66 | folding terminates and gives the ones'-complement residue (section 1 of RFC 1071) |
| Checksum.Finish | netdefs.h:82-85 | the complement of the residue |
| Checksum.Inet | netdefs.h:56-67 | the exact checksum for up to 65537 words |
| Checksum.NoWrap | netdefs.h:56-80 | the 32-bit accumulator does not wrap for up to 65537 words |
| Checksum.WrapsBeyond | netdefs.h:56-80 | with 65538 words it can |
| Checksum.WordSumSplits | netdefs.h:69-80 | sums of consecutive stretches add up when the first has even length |
| Checksum.OddSplitDiffers | netdefs.h:69-80 | with an odd first stretch they need not |
| Checksum.VerifiesIff | netdefs.h:56-85 | the receiver's checksum is zero exactly if the stored value is the computed one, up to the two zeros |
| Checksum.StoredVerifies | netdefs.h:56-85 | storing the computed checksum verifies at the receiver |
| Segments.SwapIsNetworkOrder16 | netdefs.h:47-54 | a swapped value stored little-endian is in network order, and loading and swapping gets it back |
| Segments.SwapIsNetworkOrder32 | netdefs.h:47-54 | the same for 32 bits |
| Segments.Build | tcp.c:23-67 | send_tcp_segment builds the specified IP packet, both checksums computed by the summing loops |
| Segments.SentVerifies | tcp.c:42-67 | in every packet sent the IP header and the TCP segment with its pseudo-header verify (section 3.1 of RFC 9293) |
| Segments.SentParses | tcp.c:23-89 | a packet built, framed and padded is read back as the segment it was built from |
| Wire.PacketIsWritten | tcp.c:23-69 | every packet sent is IP header, TCP header and data as the RFCs lay them out, most significant byte first, with this host's address and the connection's ports and numbers; bytes 28 to 31 are the acknowledgement number |
| Wire.WrittenParses | tcp.c:76-89 | any segment for this host, with any options in either header and any padding, is read as what its sender wrote |
| Wire.ForeignIgnored | net.c:138-187 | too short, not IP, for another host or not TCP: ignored |
| Tcp.HandleInOrderIff | tcp.c:76-141 | one segment leaves delivery in order exactly if, when accepted, it fits the free part of the receive buffer |
| TcpAnswers.Answers | tcp.c:91-140 | for every state and segment, exactly what is sent: one SYN+ACK numbered 0x1000 for a SYN taken, one ACK for data or a FIN taken, each acknowledging what is expected from then on, and nothing for anything else |
| TcpAnswers.Moves | tcp.c:91-140 | and exactly where every segment leads: state, end of stream, buffer, and every field of the connection |
| TcpAnswers.AckOnWire | tcp.c:38-69 | the packet of a segment carries its acknowledgement number in bytes 28 to 31 |
| TcpAnswers.AcksAreTrue | tcp.c:76-207 | over every run from tcp_accept in which what is accepted fits, the last segment sent acknowledges exactly the bytes received, and after the FIN the whole stream and the FIN (section 3.10.7.4 of RFC 9293) |
| TcpAnswers.OverflowIsAcked | tcp.c:120-127 | a segment that overflows the buffer is acknowledged whole, the bytes lost included |
| TcpAnswers.CloseSends | tcp.c:193-198 | tcp_close sends one FIN+ACK with both current numbers, which uses up one of its own |
| TcpAnswers.AcceptsIff | tcp.c:143-161 | tcp_accept succeeds exactly if behind the first SYN for the port an ACK comes from the same port; the connection is then to the SYN's sender, with nothing received |
| TcpAnswers.RecvReturns | tcp.c:163-181 | tcp_recv returns after the first poll that leaves data or the end of the stream: as much as asked for from the front of the data, the rest staying |
| TcpAnswers.RecvTimesOut | tcp.c:163-181 | and nothing, with all polls done, if no poll leaves any |
| Tcp.DeliveryIsInOrder | tcp.c:76-181 | over every run the bytes returned by tcp_recv are a prefix of the peer's stream, whatever is reordered, repeated or lost (section 3.10.7.4 of RFC 9293) |
| Tcp.OverflowBreaksOrder | tcp.c:120-127 | with a full buffer an accepted byte is lost and the next one is delivered in its place |
| Tcp.OverflowHappens | tcp.c:76-181 | a run from tcp_accept on a genuine peer's segments, sent once each and in order, whose delivered bytes are not a prefix of the stream |
| Tcp.FinTakenIff | tcp.c:112-118 | a FIN is taken whatever its sequence number, and everything was received by then exactly if it carries the number expected next |
| Tcp.EndOfStreamIff | tcp.c:76-181 | over every run, once a FIN was taken and the buffer is empty, when tcp_recv returns 0, the whole stream was delivered exactly if that FIN carried the number expected when it came |
| Tcp.FinCanOvertake | tcp.c:112-128 | a run from tcp_accept in which the FIN arrives before the data: the end is reported and the data refused |
| Tcp.RecvIsRun | tcp.c:163-181 | a tcp_recv is a run of arrivals closed by one delivery, if any |
| Tcp.SendCarries | tcp.c:183-191 | tcp_send emits segments whose payloads make up the data, each within 1400 bytes and numbered consecutively |
| Tcp.SentIsReceived | tcp.c:23-191 | what tcp_send emits, handled in order by the other end with room for it, adds exactly the data to its buffer, and both ends agree on what comes next |
| TcpStack.Stack.SendSegment | tcp.c:23-73 | one segment on the wire and the sequence number moved on |
| TcpStack.Stack.Transmit | tcp.c:23-69 | the card gets the destination and the packet that belongs to the segment |
| TcpStack.Stack.HandleSegment | tcp.c:91-140 | the state machine in place, on connection record and receive buffer |
| TcpStack.Stack.AcceptOn | tcp.c:143-161 | tcp_accept in place: true exactly if a connection was established within the polls |
| TcpStack.Stack.Take | tcp.c:170-176 | up to maxlen bytes handed out, the rest moved to the front |
| TcpStack.Stack.ReceiveUpTo | tcp.c:163-181 | tcp_recv in place over the frames its polls bring |
| TcpStack.Stack.SendAll | tcp.c:183-191 | the chunking loop of tcp_send |
| TcpStack.Stack.Close | tcp.c:193-207 | tcp_close in place, ending in CLOSED |
| Vga.PutScrollsIff | vga.c:59-72 | a printed character scrolls exactly in the last text cell and elsewhere changes only its own cell |
| Vga.PutKeepsStatus | vga.c:50-72 | printing and scrolling never touch the status row |
| Vga.PutExact | vga.c:50-72 | by row and column: where newline, return and every other character lead, with all cells of the screen afterwards, scrolled or not |
| Vga.PutAllWrites | vga.c:59-72 | a plain text ending before the last text cell is put down as it is |
| Vga.Screen.Scroll | vga.c:50-57 | the nested loops move the text area up one row and blank the last one |
| Vga.Screen.Putc | vga.c:59-72 | vga_putc in place, with wrap, scroll and the hardware cursor following |
| Vga.Screen.UpdateCursor | vga.c:25-31 | the two cursor registers hold the position of row and column |
| Vga.Screen.SetCursor | vga.c:112-120 | the cursor is kept inside the text area |
| Vga.Screen.StatusLine | vga.c:122-128 | the status row shows the text padded or cut to 80 columns, and nothing else changes |
| IdealLine.TypeThenErase | keyboard.c:171-219 | typing and erasing cancel while the line is not full |
| IdealLine.MovingKeys | keyboard.c:171-182 | backspace takes out the character before the cursor, the arrows move it by one within the text |
| IdealLine.TypingKeys | keyboard.c:183-219 | copy takes at most 127 characters; paste and every other character put text in at the cursor as far as there is room |
| IdealLine.TextIsEntered | keyboard.c:159-224 | typing ordinary characters, as many as fit, gives the text they spell |
| IdealLine.LeftThenRight | keyboard.c:179-182 | moving one way and back changes nothing, and moving never changes the text |
| IdealLine.CopyThenPaste | keyboard.c:183-211 | copy and paste at the end doubles a line that is short enough |
| IdealLine.DeliverablePlain | keyboard.c:159-224 | lines made of keyboard input hold no NUL, newline or carriage return |
| IdealLine.ShowableIff | keyboard.c:122-149 | screen and line can agree after every key sequence exactly if start and maxlen fit the text area |
| Editor.LineEditor.SetCursorAtIndex | keyboard.c:146-149 | the cursor goes to start plus index while that is on the screen |
| Editor.LineEditor.RedrawFrom | keyboard.c:154-157 | the tail of the line is printed anew from its place |
| Editor.LineEditor.Backspace | keyboard.c:171-178 | backspace is the ideal editor's, and a screen that showed the line shows it afterwards, the freed cell blanked |
| Editor.LineEditor.Left | keyboard.c:179-180 | as the ideal editor, screen cursor included |
| Editor.LineEditor.Right | keyboard.c:181-182 | as the ideal editor, screen cursor included |
| Editor.LineEditor.Copy | keyboard.c:183-198 | the clipboard is the ideal one and only the status row changes |
| Editor.LineEditor.Paste | keyboard.c:199-211 | the clipped paste is the ideal one and is shown |
| Editor.LineEditor.Type | keyboard.c:212-219 | a character is inserted while there is room, and shown |
| Editor.LineEditor.OneKey | keyboard.c:165-222 | after every key buffer, cursor and clipboard are the ideal line's, the status row is untouched without Ctrl+C, and a line that fits is shown exactly |
| Editor.LineEditor.Enter | keyboard.c:167-170 | Enter leaves the line as a C string and begins a new screen row behind it |
| Editor.LineEditor.ReadLine | keyboard.c:159-224 | kb_readline on any key sequence is the ideal editor up to the first Enter, with the screen in agreement |
| Editor.RedrawShows | keyboard.c:154-157 | redrawing from the first changed place shows a line that has grown or kept its length |
| Editor.EraseShows | keyboard.c:171-178 | redrawing and one blank show a line one shorter |

## Left out

- Shell, status bar, help, gopher menus, ring-3 demo programs, drivers for disk, network card,
  PCI, clock and serial line, descriptor tables and boot code: no property beyond one call.
- `sys_malloc` grants, which share whole pages by design, are not among the operations of the
  isolation theorem.
- Hardware: page-table entry bits, CR3 loads and TLB flushes, the interrupt controller and the
  stack switch of ring changes are not modelled; a page-table entry is a frame with two
  permissions.
- Block contents: `memset` of fresh pool slots and regions is not modelled; contents are modelled
  only in the ELF loader and the filesystem.
- Pages.PageAllocator.Alloc: page counts are unbounded; the wrap-around of `start + num_pages` in 32
  bits is not modelled, since callers ask for at most 2^20 pages.
- HeapRuns.HeapDisjointOverRuns: callers free only what they hold and make no request of a region
  that wraps 32 bits when rounded and added; `Heap.RegionBumpSoundIff` says that exactly the
  others are sound.
- ElfProcess.ElfImageIsCorrect: with an `e_phentsize` below 32 the loader reads headers past the
  file's end; the memory there must exist. Segments are below 32 MB and share no page, and bytes a
  segment would put past the arena's end when its size wraps are dropped. Headers and stacks
  inside the process's region are not in the modelled memory; the theorem holds for any
  contents there.
- Lifetime: names, start times, file descriptors and entry points of processes are left out, and
  so is the reuse of a pid after 2^32 creations. Pages of loaded segments are leaked when a
  process is reaped, as in the source.
- Context.ContextPreserved: memory is addressed in words; the flags register is not saved by
  the code and not modelled; a running process is assumed not to write on the stacks of others,
  and a new process's stack not to overlap live ones: `HeapRuns.StepHandsOut` states that a block
  handed out shares no byte with one still held.
- Scheduler.ProcTable.YieldRound: the endless loop of `proc_yield` is modelled as one round.
  Bottom-half callbacks, which only draw the status bar, have no effect on processes.
- Scheduler.BoundedWaiting: waiting is counted in dispatches; that dispatches go on happening
  depends on processes giving up the CPU.
- Interleave: each C statement that touches shared state is one step, and the keyboard is the
  one interrupt whose handler stores data.
- FileSystem: a NULL path is treated as an empty one; a file's data pointer is modelled by the
  bytes it addresses, and of the region only how much is used is modelled; a length near 2^32
  that would wrap the size check of `fs_append` is not modelled. `fs_read`, `fs_list` and
  `fs_find` only read and are left out.
- HeapLaws.RegionMadeIff: for sizes that do not wrap; `Heap.RegionLargeEnoughIff` covers the others.
- FsImage.SaveLoadRoundTrip: claimed for images written by `fs_save` on a disk they fit on;
  `FsDisk.ForeignDisk` and `FsDisk.AnyImage` cover arbitrary disks without claiming that the table
  is a tree, which the source does not check.
- FsImage.Save: results of sector writes are ignored by the source; writes past the end of the
  disk are lost in the model.
- Tcp.DeliveryIsInOrder: for streams shorter than the sequence space, FIN segments without
  data, a single peer, and accepted segments that fit; `Tcp.HandleInOrderIff` says what happens
  when one does not fit.
- Wire.WrittenParses: received frames are assumed to hold the data their headers speak of, which
  the source does not check.
- TcpStack.Stack.ReceiveUpTo: the polls of a call are a finite sequence of frames, so running
  out of them is the timeout; `proc_yield` between polls and ARP and ICMP traffic change
  nothing in the model.
- Editor.LineEditor.ReadLine: `maxlen` is the length of the buffer; the echo to the serial line
  is left out. The keys are a finite sequence, and waiting for the next one is the end of it.
