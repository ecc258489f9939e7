# AliOS kernel core: a Dafny model

AliOS is a small 32-bit x86 kernel. This project models its page allocator, its
copy-on-write address spaces, its kernel heap, its scheduler with descriptors
and pipes, its file system AliFS and its ELF loader, and proves what they keep
over every run. The C code that changes things in place is modelled by classes
whose methods follow its loops and branches; each method is proved against a
function or relation on values, and the theorems are about those.

| module | models |
|---|---|
| `Pmm` | kernel/pmm.c: bitmap, free count and reference counts of page frames |
| `Cow`, `Uvm` | kernel/uvm.c and the copy-on-write branch of kernel/fault.c. `Cow` has one map from page to entry per address space, and the machine that copies every page at fork. `Uvm` has the two-level tables in physical frames and shows that they take the steps of `Cow` |
| `UvmStates` | boot-like states with the kernel's identity tables, in which the failures below happen |
| `HeapModel`, `Heap` | kernel/heap.c: blocks that tile pages, and memory as words with the headers linked through it |
| `SchedModel`, `Sched` | kernel/sched.c, the descriptor code of kernel/syscall.c and the end counters of kernel/pipe.c. A state is the run queue from the current task on, task records by address and the pipe pool; an event is one region that runs with interrupts off |
| `SchedLaws` | what each of those events does to each field of each task |
| `Pipes` | the ring buffer of kernel/pipe.c, and any number of pipe_read and pipe_write calls interleaved turn by turn |
| `AlfsModel`, `Alfs`, `Mkfs` | kernel/alfs.c over a drive that may fail, and the image tools/mkfs.c writes |
| `AlfsMount` | what a mount reads after a failed overwrite and one more operation |
| `Files` | file_write and sys_open_w of kernel/syscall.c |
| `Elf`, `Args` | elf_load and elf_push_args of kernel/elf.c |
| `ByteSeq`, `Sets` | bytes, words and C strings; cardinalities and maps |

Main results:

- Every run of map, fork, user-mode store and free shows user code exactly what
  a machine that copies at fork would show, and keeps each frame's reference
  count equal to the number of entries that map it (`Cow.RunRefinesEager`).
  Clone followed by free restores the allocator exactly (`Uvm.CloneThenFree`).
- Every address space maps the kernel as the kernel's own directory does, at all times
  (`Uvm.Vm.Create` and the validity of `Uvm.Vm`), and what the processor lets ring 3
  read and write through the tables is the view of those theorems
  (`Uvm.ProcessorShows`).
- Heap blocks tile the heap's pages after every call, and no call changes a word
  in the payload of a block that stays live or outside the heap's pages
  (`Heap.Heap.Alloc`, `Heap.Heap.Free`); one forward pass of kfree merges the
  freed block with at most its two list neighbours and reaches the fixpoint
  (`HeapModel.FreeMergesNeighbours`, `HeapModel.PassSeparates`).
- Over every interleaving of scheduler and descriptor events the queue is one
  cycle, only the current task is RUNNING, zombies hold no pipe end, and pipe
  end counts equal open descriptors, if and only if no killed task that still runs
  makes a pipe (`SchedModel.StepInv`, `SchedModel.TraceInv`). A READY task is
  dispatched within its distance plus the tasks added (`SchedModel.DispatchedInTime`).
- For every event, the state, queue position, exit code, pending kill, wait flag, wake
  tick and descriptors of every task are given by the fields before it
  (`SchedLaws.Switched`, `SchedLaws.FieldsStep`, `SchedLaws.FdsStep`).
- Bytes read followed by bytes buffered are the bytes written, in every
  interleaving of turns (`Pipes.StepInv`); a turn on the ring, with its 32-bit
  counters that wrap around, is a turn of that machine (`Pipes.Pipe.ReadTurn`,
  `Pipes.Pipe.WriteTurn`).
- A step of AliFS is what the code does to the directory, the data sectors and the
  one flushed sector. Every run of steps refines a map from path to bytes or
  directory, also when transfers fail (`AlfsModel.StepRefines`,
  `AlfsModel.RunRefines`, `AlfsModel.MountedRunRefines`). The map and each operation
  are given in the bytes of the disk as well (`AlfsModel.TreeOnDisk`,
  `AlfsModel.DoneOnDisk`).
- A loaded program's memory is byte for byte what its program headers describe
  (`Elf.Loader.Load`, stated with the words of the program header table).

Properties one would expect that do not hold of the code, each with its exact
condition or effect:

- The tables of directory slots 0 to 31 are shared with the kernel
  (kernel/uvm.h:17-18), but the loop of uvm_free starts at slot 0. On top of the
  user range it takes from each frame as many references as those tables lead to it
  (`Uvm.LiteralWeights`), so it frees just the user range if and only if the slots
  are empty (`Uvm.LiteralFreeIsExact`). With the identity tables of paging_init
  every frame in use below 128 MB loses a reference (`Uvm.LiteralDropsAll`), and a
  page that another process maps alone is freed under it
  (`Uvm.LiteralFreesMapped`, `UvmStates.LiteralFreeFails`).
- uvm_clone succeeds if and only if the free frames outnumber the page tables of the
  source. "A clone that fails gives everything back" holds if no frame is free;
  otherwise a reference stays behind, added just before the mapping that ran out, and
  which page that is follows from the free count (`Uvm.Vm.Clone`, `Uvm.RunsOutOnce`,
  `Uvm.FailedCloneLeaksOne`, `UvmStates.CloneLeaks`).
- A reference count is a byte and stops at 255: a fork keeps counts equal to mappings
  if and only if every page it shares has room (`Uvm.CloneShows`). A clone of one of
  255 processes that share a page succeeds and breaks them (`UvmStates.CrowdBreaks`,
  `UvmStates.CrowdHasNoRoom`).
- CR0.WP is never set, so a store by the kernel, as in sys_read, does not fault on a
  copy-on-write page. It is what a copying machine would do if and only if the entry
  is the frame's only one or the byte is there already (`Cow.PokeIsolated`); after a
  fork the other process sees it (`Cow.PokeAfterFork`).
- "A zombie stays a zombie until it is reaped" fails exactly when a child of it
  exits while its `waiting` flag is set, or when it still runs, because nothing
  else can, and blocks itself (`SchedModel.ZombieStep`, `SchedModel.ZombieRevived`).
  A killed task that still runs breaks "zombies hold no pipe end" by sys_pipe exactly
  when a pipe and two descriptors are free (`SchedModel.PipeByZombie`), and a run does
  (`SchedModel.ZombiePipes`).
- A sleep lasts at least the milliseconds asked for if and only if they are at most
  2^32 - 10: the nine values above wrap to no time at all
  (`SchedLaws.SleepIsLongEnough`).
- A stored path reads back if and only if it has at most 51 bytes
  (`AlfsModel.NameKept`). A longer one doubles a path, and so breaks the invariant
  of the directory, exactly when its first 51 bytes are already a path
  (`AlfsModel.StepKeepsInv`).
- A write that fails part way can also lose the old bytes of its own path after a
  remount, exactly when the new extent meets the old one
  (`AlfsModel.NamedSurvives`, `AlfsModel.NamedLost`). The old entry is still on disk, so
  a mount after one more operation is safe exactly when that operation wrote the old
  entry's sector or its own entry does not meet the old one (`AlfsMount.LaterMount`);
  the same write again can leave the path there twice (`AlfsMount.RetryMount`,
  `AlfsMount.RetryDoubles`).
- A program reads back the arguments pushed on its stack if and only if they fit
  the page; otherwise argc is the index of the string that did not fit and the
  pointers are uninitialised, or the words go below the page (`Args.PushArgs`,
  `Args.MiddleTooLong`).
- Where segments share a page it holds only what the last of them describes, and
  nothing of the others (`Elf.ImagePage`, `Elf.ImageByte`).
- A file shorter than its ELF header is judged by what hdr_buf held before; an
  empty file or a directory has the previous program's header
  (`Elf.SeenHeader`, `Elf.SeenNothing`).
- Page numbers of E820 entries come round again at 2^44, where a usable entry frees
  low pages (`Pmm.VisitsAliases`, `Pmm.HighEntryFreesLow`).

Where code and comments disagree the model follows the code: kernel/uvm.h:46-48
describes uvm_clone as an eager copy, the code shares pages. A zero-byte file is
written with one sector that it does not keep, so the next file may start there.

Syscalls enter with interrupts off, so the descriptor loops of sys_pipe and
sys_fork are one event each; `cli` to `sti` is one event elsewhere.

## Model

| member | source | states |
|---|---|---|
| `Pmm.Allocator.RangeFree` | kernel/pmm.c:58-71 | a page becomes free exactly when the loop, with its 64-bit rounding, visits it; the free count stays the number of clear bits |
| `Pmm.Allocator.RangeUsed` | kernel/pmm.c:74-85 | exactly the pages that the range touches stop being free |
| `Pmm.Allocator.Init` | kernel/pmm.c:89-110 | which pages are free afterwards, for any E820 map and kernel end |
| `Pmm.InitMeansUsableRam` | kernel/pmm.c:89-110 | for maps that end at or below 2^44: a page is free after init if and only if it is below 256 MB and lies wholly inside one entry of type 1, at 1 MB or above, clear of the kernel image |
| `Pmm.VisitsWhole` | kernel/pmm.c:58-71 | for entries that end at or below 2^44 the loop visits exactly the pages that lie wholly inside the entry |
| `Pmm.VisitsAliases` | kernel/pmm.c:58-71 | for every entry in the 64-bit space the loop visits page p if and only if some page whose number is p modulo 2^32 lies wholly inside the entry |
| `Pmm.InitMeansAliases` | kernel/pmm.c:89-110 | the same for pmm_init and any map |
| `Pmm.HighEntryFreesLow` | kernel/pmm.c:89-110 | with one usable page at 2^44 + 1 MB and no other entry pmm_init leaves page 256 free, though no usable memory is there |
| `Pmm.Allocator.Alloc` | kernel/pmm.c:112-123 | the lowest free page leaves the free set with one reference; 0 exactly when none is free |
| `Pmm.Allocator.Release` | kernel/pmm.c:125-140 | one reference is dropped, and the page is freed with the last one |
| `Pmm.Allocator.Retain` | kernel/pmm.c:143-148 | one reference is added, up to 255 |
| `Pmm.Allocator.GetRef` | kernel/pmm.c:151-155 | the stored count, 0 beyond the last page |
| `Pmm.DropAllWeights` | kernel/pmm.c:125-140 | any list of frees in any order lowers each page's references by its number of occurrences; a page is free afterwards if and only if it was, or occurs as often as it had references |
| `Pmm.ExactlyNDrops` | kernel/pmm.c:125-140 | a page with n references is free after k frees if and only if k >= n |
| `Cow.StepInv` | kernel/uvm.c:83-130 | every step keeps: mapped frames are in use, a frame's count is the number of entries mapping it, and a writable entry is its frame's only mapper and is not copy-on-write |
| `Cow.StepRefines` | kernel/fault.c:83-124 | every step does to what user code sees what the copying machine does |
| `Cow.RunRefinesEager` | kernel/uvm.c:83-130 | both, for every run over any number of address spaces |
| `Cow.WriteIsolated` | kernel/fault.c:83-124 | a store changes one byte of the writer's view and nothing else in any view |
| `Cow.ForkThenFree` | kernel/uvm.c:83-152 | fork then free of the child restores all counts and the free set and leaves views alone; a page with no other sharer is left with count 1 |
| `Cow.ForkNeedsRoom` | kernel/pmm.c:143-148 | if some state with the forked spaces meets the invariant then every shared page had room for its new sharers in a count of at most 255: what fork asks for is necessary |
| `Cow.PokeShows` | kernel/syscall.c:122-142 | a kernel store through one entry changes the byte in every page of every space that has its frame, and nothing else |
| `Cow.PokeInv` | kernel/syscall.c:122-142 | it keeps the invariant |
| `Cow.PokeIsolated` | kernel/syscall.c:122-142 | it is the store of the copying machine if and only if the entry is the only one of its frame or the byte is there already |
| `Cow.PokeAfterFork` | kernel/syscall.c:122-142 | after a fork a kernel store into a page of the parent shows in the child |
| `Uvm.Vm.Create` | kernel/uvm.c:13-29 | an empty address space over a fresh directory: slots 0 to 31 and 768 to 799 are the kernel's own, 800 to 1023 are 0 and the user slots empty; it is the Create step and keeps the invariant |
| `Uvm.CreateIsStep` | kernel/uvm.c:13-29 | a fresh directory over unchanged data is the Create step and keeps the invariant |
| `Uvm.KernelKeptTable` | kernel/paging.c:90-99 | a word in a page table or a store to a page changes no directory's kernel slots: with the three below, every address space maps the kernel at all times |
| `Uvm.KernelKeptSlot` | kernel/uvm.c:40-57 | nor does a new table in a user slot |
| `Uvm.KernelKeptFree` | kernel/uvm.c:40-57 | nor does filling a frame that was free |
| `Uvm.KernelNew` | kernel/uvm.c:13-29 | and a new directory has them |
| `Uvm.ProcessorShows` | kernel/paging.h:5-8 | by the present, write and user bits of both levels the processor lets ring 3 read an address if and only if the view has the page, gives it the bytes of the view, and lets it write without a fault if and only if the entry is writable, which is then the frame's only one; bit 9 of the word is the copy-on-write mark |
| `Uvm.Vm.EnsureTable` | kernel/uvm.c:40-57 | a table for the slot exists, every address space is unchanged, any new table is at that slot and cost one frame; or memory is exhausted and nothing changed |
| `Uvm.Vm.MapPage` | kernel/uvm.c:40-60 | the one page is mapped with these flags, all other entries and all data are kept, and it costs a frame if and only if the slot had no table; or memory is exhausted and nothing changed |
| `Uvm.MapIsStep` | kernel/uvm.c:40-60 | with a frame taken and mapped by nobody, on an absent page or over an entry that is its frame's only one, that is the Map step and keeps the invariant |
| `Uvm.Vm.Clone` | kernel/uvm.c:83-130 | it succeeds if and only if more frames are free than the source has page tables. Success gives a directory that maps the kernel, shows the child what the parent sees and keeps the invariant if and only if there is room in the 255-bounded counts, and is then the Fork step. Failure leaves what user code sees; with no free frame nothing changed, otherwise every frame's references are those the unfinished clone leaves behind, less the visits of the kernel's identity tables, and the page it stopped at is the one that asks for the table after the last free frame |
| `Uvm.RunsOutOnce` | kernel/uvm.c:83-130 | the space and the number of free frames determine the page at which a clone runs out |
| `Uvm.CloneIsFork` | kernel/uvm.c:83-130 | the finished clone is the Fork step and keeps the invariant |
| `Uvm.CloneShows` | kernel/uvm.c:83-130 | whatever the counts, the finished clone shows the child what the parent sees; the invariant is kept if and only if there was room for the new sharers |
| `Uvm.FailedCloneLeaksOne` | kernel/uvm.c:110-118 | what a stopped clone leaves is the allocator as before but for one count that is one too high, if and only if no count reached 255 on the way |
| `Uvm.FailedCloneLeft` | kernel/uvm.c:110-118 | for any counts, what the freeing of the unfinished child's user range leaves |
| `Uvm.FailedCloneLiteral` | kernel/uvm.c:110-118 | for any counts, the clean-up as written, from slot 0, takes from every frame as many references more as the kernel's identity tables lead to it |
| `Uvm.Vm.FreeFrom` | kernel/uvm.c:139-152 | the loop drops exactly the references of its walk over tables and entries |
| `Uvm.FreeIsStep` | kernel/uvm.c:139-152 | over the user range that is the Free step: pages no other space maps, the tables and the directory become free |
| `Uvm.CloneThenFree` | kernel/uvm.c:83-152 | clone then free of the user range restores counts, free set and views on the real tables |
| `Uvm.LiteralFreeIsExact` | kernel/uvm.c:139-152 | where slots 0 to 31 lead to the kernel's tables, the loop from slot 0 equals the user-range free if and only if none of them is present; else it drops a reference of each such table |
| `Uvm.LiteralWeights` | kernel/uvm.c:139-152 | for any tables: references after the loop from slot 0 are those after the user-range free less the visits of slots 0 to 31, and which frames become free |
| `Uvm.LiteralDropsAll` | kernel/uvm.c:139-152 | with the identity tables of paging_init every frame below 128 MB still in use loses a reference |
| `Uvm.LiteralFreesMapped` | kernel/uvm.c:139-152 | then every page below 128 MB that another space maps alone is freed while mapped |
| `UvmStates.LiteralFreeFails` | kernel/uvm.c:139-152 | a state with the kernel's identity tables and two processes in which freeing one frees the page the other maps, and breaks the invariant |
| `UvmStates.CloneLeaks` | kernel/uvm.c:110-118 | a state with one free frame in which a clone has none for its first table and leaves the count of the page one too high |
| `UvmStates.CrowdHasNoRoom` | kernel/pmm.c:143-148 | 255 processes that share a page meet the invariant, have frames for another clone and leave no room in the count |
| `UvmStates.CrowdBreaks` | kernel/uvm.c:83-130 | every state that a finished clone of one of them can leave breaks the invariant |
| `Uvm.Vm.PageFault` | kernel/fault.c:83-124 | the entry becomes writable in place for a sole owner, or on a private copy with the share dropped; when not resolved, nothing changed and why |
| `Uvm.Vm.SetOwnWritable` | kernel/fault.c:101-103 | no allocation and no copy for the sole owner |
| `Uvm.Vm.CopyPage` | kernel/fault.c:104-119 | the copy has the old bytes, the writer maps it alone and every other mapper keeps the old frame |
| `Uvm.Vm.UserStore` | kernel/fault.c:83-124 | a store with its fault is the Write step, or the page is absent or read-only to the user or memory is exhausted |
| `Uvm.Vm.KernelStore` | kernel/syscall.c:122-142 | a store by the kernel through a user address succeeds if and only if the page is present, whatever its flags, and changes that byte of the frame |
| `HeapModel.UseTiled` | kernel/heap.c:95-107 | a split keeps blocks aligned, disjoint and covering exactly the same bytes |
| `HeapModel.GrownTiled` | kernel/heap.c:29-75 | growing tiles the old pages and the new one |
| `HeapModel.MergeTiled` | kernel/heap.c:131-138 | a merge tiles the same pages |
| `HeapModel.UseSeparated` | kernel/heap.c:95-107 | allocation keeps: no two list neighbours are both free and contiguous |
| `HeapModel.GrownSeparated` | kernel/heap.c:63-73 | growing keeps it |
| `HeapModel.PassSeparates` | kernel/heap.c:125-143 | one forward pass establishes it from any list |
| `HeapModel.PassFixpoint` | kernel/heap.c:125-143 | a further pass changes nothing, so the do-while stops |
| `HeapModel.FreeMergesNeighbours` | kernel/heap.c:117-144 | the pass merges the freed block with its list neighbours and nothing else: at most two merges |
| `HeapModel.UseLive` | kernel/heap.c:95-107 | allocation adds one live block and keeps all others in place and size |
| `HeapModel.PassLive` | kernel/heap.c:125-143 | merging touches no live block |
| `HeapModel.GrownTotal` | kernel/heap.c:29-75 | headers and payloads grow by exactly 4096 bytes |
| `HeapModel.GrownFits` | kernel/heap.c:29-75 | one grow makes room for any request up to 4084 bytes |
| `HeapModel.HeaderMissesPayload` | kernel/heap.c:95-107 | no header lies in another block's payload; the stores of a client keep the list because of it |
| `Heap.Heap.Grow` | kernel/heap.c:29-75 | a page moves from the allocator to the heap, as a longer tail or a new block, and no live payload changes; fails only with no free page |
| `Heap.Heap.LinkPage` | kernel/heap.c:36-74 | the three header words in memory stay linked in list order; no word of a live payload or outside the pages changes |
| `Heap.Heap.Find` | kernel/heap.c:92-109 | the first block in list order that is free and big enough, or none is |
| `Heap.Heap.UseBlock` | kernel/heap.c:94-107 | the block is split or handed out whole, the pointer is 4-aligned, and no live payload changes |
| `Heap.Heap.Alloc` | kernel/heap.c:84-115 | first fit after as many grows as needed; live blocks kept, and no word in their payloads or outside the pages changed; up to 4084 bytes it grows at most once and fails only if nothing fits and no page is free |
| `Heap.Heap.Coalesce` | kernel/heap.c:128-142 | one walk over the headers is the forward pass, reports whether it merged, and changes no live payload |
| `Heap.Heap.Free` | kernel/heap.c:117-144 | the freed block is joined to its neighbours, every other live block is kept with every word of its payload, and the loop ends |
| `Heap.Heap.Store` | kernel/heap.c:10-21 | a store through a live pointer, inside its payload, keeps the heap |
| `Heap.BigEnough` | kernel/heap.c:84-90 | the rounded size is at least the request if and only if adding 3 does not wrap 32 bits, and then it is the next multiple of 4 |
| `Heap.SplitOff` | kernel/heap.c:94-107 | a block is handed out whole if and only if the rest would have less than 8 bytes behind its header of 12; otherwise the rest is a free block right after it, up to the old end |
| `SchedModel.StepInv` | kernel/sched.c:11-302 | an event keeps one ring of all tasks, RUNNING only at its head, zombies without pipe ends, pids distinct, and each pipe's counts equal to the open descriptors over all tasks, if and only if it is not a sys_pipe with room by a killed task that still runs |
| `SchedModel.RunInv` | kernel/sched.c:11-302 | every state of a run without such an event has all of that |
| `SchedModel.TraceInv` | kernel/sched.c:11-302 | over any sequence of events every state has it if and only if there is no such event |
| `SchedModel.CloseAllCounts` | kernel/sched.c:11-22 | releasing a table lowers each count by the table's own descriptors, no more and no less |
| `SchedModel.DeadInv` | kernel/sched.c:217-227 | exit keeps counts and descriptors equal |
| `SchedModel.SignalsInv` | kernel/sched.c:94-120 | so does killing any number of tasks in one tick |
| `SchedModel.NewInv` | kernel/syscall.c:291-304 | so do creating a task and forking one with its descriptors |
| `SchedModel.PipeMadeInv` | kernel/syscall.c:347-377 | so does sys_pipe, on success and on its failure path |
| `SchedModel.PipeByZombie` | kernel/syscall.c:347-377 | for a killed task that still runs sys_pipe keeps the invariant if and only if no pipe or no two descriptors are free |
| `SchedModel.ZombiePipes` | kernel/sched.c:94-137 | a run in which a task is killed at the tick, goes on running and breaks the invariant by sys_pipe |
| `SchedModel.ClosedFrom3Inv` | kernel/syscall.c:240-244 | so does closing descriptors on exec |
| `SchedModel.FreePipeUnused` | kernel/pipe.c:25-37 | a slot that pipe_alloc can hand out is referred to by no descriptor |
| `SchedModel.SwitchIsEligible` | kernel/sched.c:62-82 | the current task changes only in schedule, to a task that was neither BLOCKED nor ZOMBIE |
| `SchedModel.TickSettles` | kernel/sched.c:94-137 | after a tick no task is blocked in wait with a zombie child, none sleeps past its due tick, and no live task has SIGKILL pending |
| `SchedModel.ZombieStep` | kernel/sched.c:217-243 | a zombie is one after the event if and only if the event is neither the exit of its child with its waiting flag set nor its own block, sleep or wait |
| `SchedModel.ZombieFinal` | kernel/sched.c:94-302 | over runs in which no zombie has the flag set a zombie that does not block itself is final |
| `SchedModel.ZombieRevived` | kernel/sched.c:217-243 | a run in which a task killed inside sched_wait runs again |
| `SchedModel.DispatchNearer` | kernel/sched.c:62-82 | each schedule brings an eligible task strictly nearer to the head, or dispatches it |
| `SchedModel.BoundedWaiting` | kernel/sched.c:62-82 | while a task stays READY, calls of schedule plus its distance are at most its first distance plus the tasks added; reaping never adds |
| `SchedModel.ReadyStays` | kernel/sched.c:62-209 | a READY task that is not killed leaves READY only by being dispatched |
| `SchedModel.DispatchedInTime` | kernel/sched.c:62-82 | it is dispatched within that many calls |
| `SchedLaws.DispatchMeans` | kernel/sched.c:62-82 | schedule() finds the first READY or RUNNING task after the current one, which becomes RUNNING and the head of the queue, and the one that ran READY; if there is none nothing changes |
| `SchedLaws.Switched` | kernel/sched.c:62-302 | the same for every event that calls it, on the states that the event gives by the fields before it: sleepers whose tick has come, waiters with a dead child, killed tasks, the woken parent, the task that blocks itself |
| `SchedLaws.NotSwitched` | kernel/sched.c:148-209 | any other event changes at most the state of the BLOCKED task it wakes |
| `SchedLaws.SleeperStays` | kernel/sched.c:94-137 | a BLOCKED task without SIGKILL pending is BLOCKED after a tick, with its record unchanged, if and only if it does not sleep or its tick has not come, and it does not wait or no child of it is a zombie or killed at this tick |
| `SchedLaws.FieldsStep` | kernel/sched.c:94-302 | for every event and task: pid and parent never change; when the exit code, the pending kill, the wait flag and the wake tick change, and to what |
| `SchedLaws.SleepIsLongEnough` | kernel/sched.c:179-191 | the wake tick is the first one at which the milliseconds have passed, if and only if they are at most 2^32 - 10 |
| `SchedLaws.FdsStep` | kernel/sched.c:11-22 | for every event and task: descriptors change by the task's own calls and by its death, which closes exactly its pipe ends |
| `SchedLaws.OpenLowest` | kernel/syscall.c:99-120 | an open takes the lowest free descriptor from 3 on, or there is none |
| `SchedLaws.PipeLowest` | kernel/syscall.c:347-377 | sys_pipe takes the two lowest free descriptors from 3 on, read end first, and the first pipe without ends, or changes nothing |
| `SchedLaws.CloseLowers` | kernel/pipe.c:41-42 | closing a read end lowers the readers by one, closing a write end the writers |
| `SchedLaws.Born` | kernel/syscall.c:291-304 | a new task is next in the queue and READY with the next pid, the caller as parent and, after fork, its descriptors |
| `SchedLaws.PidStep` | kernel/task.c:141-189 | pids are used up by creating and forking only |
| `SchedLaws.ReapsFirst` | kernel/sched.c:254-302 | a wait with a dead child removes the first one in the queue, and only it |
| `SchedLaws.KilledCode` | kernel/sched.c:108-114 | over every run a killed task that does not exit by itself afterwards has code -9 for whoever reaps it |
| `Sched.Scheduler.Schedule` | kernel/sched.c:62-82 | the loop stops and the pointers and states are those after the dispatch of the first eligible task, or unchanged |
| `Sched.Scheduler.ReleasePipeFds` | kernel/sched.c:11-22 | exactly the pipe descriptors are closed and each released once |
| `Sched.Scheduler.DeliverSignals` | kernel/sched.c:99-118 | due sleepers are READY and pending kills delivered for every task of the ring |
| `Sched.Scheduler.WakeAllWaiters` | kernel/sched.c:120-134 | exactly the blocked waiters with a zombie child are woken |
| `Sched.Scheduler.TimerTick` | kernel/sched.c:94-137 | the three loops over `next` pointers and the dispatch give the tick event: signals for all tasks, then waiters, then schedule |
| `Sched.Scheduler.AddTask` | kernel/sched.c:163-170 | the new task is second in the cycle, READY |
| `Sched.Scheduler.SpawnTask` | kernel/task.c:141-189 | the creation event: fresh pid, the caller as parent, no descriptors |
| `Sched.Scheduler.YieldCpu` | kernel/sched.c:172-177 | the yield event: a dispatch, with the invariant kept |
| `Sched.Scheduler.SleepFor` | kernel/sched.c:179-191 | the sleep event with its 32-bit due tick |
| `Sched.Scheduler.BlockSelf` | kernel/sched.c:193-199 | the block event: BLOCKED, then a dispatch |
| `Sched.Scheduler.WakeTask` | kernel/sched.c:201-209 | the wake event: only a BLOCKED task becomes READY, and no longer sleeps |
| `Sched.Scheduler.ExitTask` | kernel/sched.c:217-243 | the exit event with release of pipe ends and wake-up of the parent |
| `Sched.Scheduler.WaitTurn` | kernel/sched.c:254-302 | it reaps the first zombie child with its pid and code, removes exactly that task, returns -1 if and only if the ring has no child, and otherwise blocks |
| `Sched.Scheduler.KillPid` | kernel/syscall.c:326-340 | the first other task with the pid is marked; fails if and only if there is none |
| `Sched.Scheduler.Interrupt` | kernel/sched.c:148-153 | the Ctrl-C event: SIGKILL pending unless the task is a zombie |
| `Sched.Scheduler.ForkTask` | kernel/syscall.c:291-304 | the fork event: the child has the parent's descriptors, each pipe end counted |
| `Sched.Scheduler.PipeAlloc` | kernel/pipe.c:25-37 | the first slot with both counts 0, or -1 if there is none |
| `Sched.Scheduler.MakePipe` | kernel/syscall.c:347-377 | the pipe event; it succeeds if and only if a pipe and two descriptors are free, and failure leaves the state as it was; the invariant is kept if and only if the task is live or they are not free |
| `Sched.Scheduler.CloseFd` | kernel/syscall.c:144-154 | the close event; -1 and no change for a closed or bad descriptor |
| `Sched.Scheduler.CloseOnExec` | kernel/syscall.c:240-244 | descriptors 3 to 7 are closed, each pipe end once |
| `Sched.Scheduler.OpenFd` | kernel/syscall.c:99-120 | the first free descriptor from 3 on becomes a file descriptor |
| `Pipes.HeldPop` | kernel/pipe.c:69-72 | reading a byte drops the oldest one, also when the counter wraps |
| `Pipes.HeldPush` | kernel/pipe.c:103-106 | writing a byte appends it and overwrites no held byte |
| `Pipes.Pipe.ReadTurn` | kernel/pipe.c:51-74 | one turn moves the oldest bytes to the caller in order, all there are or all it wants; stops if and only if the buffer is empty with no writer, retries if and only if it is empty with one; it is the reader's turn of the interleaving machine |
| `Pipes.Pipe.WriteTurn` | kernel/pipe.c:84-108 | one turn appends the caller's next bytes, all it has or all that fit into 512; fails if and only if there is no reader, retries if and only if there is one and no space; it is the writer's turn of the interleaving machine |
| `Pipes.ReadTurnIsNext` | kernel/pipe.c:51-74 | a turn with these effects on ring and caller is the machine's next state |
| `Pipes.WriteTurnIsNext` | kernel/pipe.c:84-108 | the same for a writer |
| `Pipes.StepInv` | kernel/pipe.c:46-111 | every event of every interleaving keeps: bytes read then bytes buffered are the bytes written, at most 512 buffered, each reader has its share and each writer has sent a prefix, in order; results are the full count, the short count, or -1 with bytes unsent |
| `Pipes.RunInv` | kernel/pipe.c:46-111 | so does every run |
| `Pipes.ShortReadIsEof` | kernel/pipe.c:55-60 | a read returns short if and only if it finds the buffer empty and no writer with bytes still wanted; with bytes in the buffer it gets some |
| `Pipes.FailedWriteIsBroken` | kernel/pipe.c:87-91 | a write returns -1 if and only if there is no reader and bytes are still to be sent; with a reader and space it sends some |
| `Pipes.ReaderTurn` | kernel/pipe.c:46-76 | everything a reader's turn does to the buffer, to its call and to the others, by the state before it |
| `Pipes.WriterTurn` | kernel/pipe.c:79-111 | the same for a writer |
| `Pipes.SoleChannel` | kernel/pipe.c:46-111 | with one reader and one writer the reader has a prefix of the writer's bytes and the buffer the rest of what was sent |
| `AlfsModel.NameKept` | kernel/alfs.c:18-23 | a stored path reads back if and only if it has at most 51 bytes; the rest of the 52 bytes is 0 |
| `AlfsModel.DecodeEncode` | kernel/alfs.h:53-59 | a 64-byte entry written and read is the same entry: 52 bytes of name, then start, size and flags as words with the lowest byte first |
| `AlfsModel.EncodeDecode` | kernel/alfs.h:53-59 | and every 64 bytes read and written are the same bytes, in the same places |
| `AlfsModel.LaidIs` | kernel/alfs.h:53-59 | what a mount reads of entry i is its name, start, size and flags at bytes 512 + 64 i, + 52, + 56 and + 60 of the disk |
| `AlfsModel.SyncedLaid` | kernel/alfs.c:101-108 | an entry in memory is the one on disk if and only if those bytes say so |
| `AlfsModel.FlushedLaid` | kernel/alfs.c:101-108 | so they do for the eight entries of a flushed sector |
| `AlfsModel.TreeOnDisk` | kernel/alfs.h:53-59 | an entry with odd flags is a path of the map, a directory if bit 1 is set and else the bytes of the disk from its first sector on |
| `AlfsModel.PathOnDisk` | kernel/alfs.h:53-59 | and every path of the map is that of such an entry |
| `AlfsModel.DoneOnDisk` | kernel/alfs.c:127-210 | what a successful operation leaves in the bytes of its entry: path, first sector behind all other files, length and flags 1, with the data there; path and flags 3; or flags 0; a new path takes the first unused entry, and no other entry changes |
| `AlfsModel.FlushSyncs` | kernel/alfs.c:101-108 | writing the one sector of a changed entry makes the directory on disk equal the one in memory |
| `AlfsModel.FullView` | kernel/alfs.c:141-145 | no slot is free if and only if 48 paths exist |
| `AlfsModel.OthersAreKept` | kernel/alfs.c:147-170 | whatever is written at the high-water mark, every other path keeps its bytes under the old directory |
| `AlfsModel.Refusal` | kernel/alfs.c:127-210 | the searches of the code refuse exactly what the map says: a write to a directory, a path that exists or does not, a full table |
| `AlfsModel.WriteRefines` | kernel/alfs.c:141-179 | the dropped entry, data at the high-water mark, new entry and flush are the map update; a failed data write removes its own path and nothing else |
| `AlfsModel.MkdirRefines` | kernel/alfs.c:181-198 | the new entry and its flush add the directory |
| `AlfsModel.DeleteRefines` | kernel/alfs.c:200-210 | the cleared entry and its flush are the removal |
| `AlfsModel.StepRefines` | kernel/alfs.c:25-210 | each step of the code keeps the invariant and does to the map what the operation says, by outcome; without a failed transfer disk and memory stay in step |
| `AlfsModel.StepKeepsInv` | kernel/alfs.c:18-23 | a step keeps the invariant if and only if the name is stored whole, or what is stored of it is no path yet, or nothing is entered |
| `AlfsModel.RunRefines` | kernel/alfs.c:25-210 | runs of write, mkdir, delete and remount without a failed transfer refine the map, with disk and memory in step |
| `AlfsModel.MountedRunRefines` | kernel/alfs.c:127-210 | runs with failing transfers refine it too until the next mount |
| `AlfsModel.LastWriteWins` | kernel/alfs.c:127-179 | in the last state of a run the directory and the disk hold under a path the bytes of the last successful write to it |
| `AlfsModel.FailedWriteRemount` | kernel/alfs.c:127-179 | after a failed data write and a remount every other path is as before |
| `AlfsModel.NamedSurvives` | kernel/alfs.c:127-179 | if the new extent does not meet the old one, the path itself has its old bytes too |
| `AlfsModel.NamedLost` | kernel/alfs.c:127-179 | if it does, some failure of the transfer loses them |
| `AlfsModel.MarkKept` | kernel/alfs.c:115-125 | a file that is written again starts at the same sector |
| `AlfsModel.StepTerminated` | kernel/alfs.c:18-23 | after a write of any name the names in use end within their 52 bytes |
| `AlfsMount.FailedIsStale` | kernel/alfs.c:147-170 | after an overwrite whose data transfer failed the disk has the directory of memory but for the old entry |
| `AlfsMount.LaterMount` | kernel/alfs.c:101-108 | after one more operation a mount gives the invariant if and only if that operation wrote the sector of the old entry, or its own entry has another path and shares no sector with the old one |
| `AlfsMount.RetryMount` | kernel/alfs.c:127-179 | after the failed write succeeds at a second try a mount is safe if and only if the first free entry is in the sector of the old one |
| `AlfsMount.RetryDoubles` | kernel/alfs.c:127-179 | such a run from every state where the first free entry is in an earlier sector: the path is on disk twice |
| `Alfs.Streq` | kernel/alfs.c:12-16 | true if and only if the stored name is the path |
| `Alfs.CopyName` | kernel/alfs.c:18-23 | 51 bytes at most, padded with NULs to 52 |
| `Alfs.Alfs.Init` | kernel/alfs.c:25-35 | on success the directory in memory is, byte by byte, the one on disk; on a working drive it succeeds if and only if the first four bytes are the magic |
| `Alfs.Alfs.Find` | kernel/alfs.c:37-44 | the first entry that holds the path; -1 if and only if the path does not exist |
| `Alfs.Alfs.Read` | kernel/alfs.c:59-88 | the first bytes of the file, nothing beyond them in the buffer, and only sectors of its extent |
| `Alfs.Alfs.FlushSlot` | kernel/alfs.c:101-108 | the sector of the entry is written with its eight entries, byte by byte, and no other |
| `Alfs.Alfs.HighWaterMark` | kernel/alfs.c:115-125 | the first sector after all files, without 32-bit wrap |
| `Alfs.Alfs.WriteData` | kernel/alfs.c:149-170 | the batches leave exactly the data in the extent, zeros in the rest of its last sector, and touch no other sector; on a working drive it succeeds if and only if the disk is long enough |
| `Alfs.Alfs.Write` | kernel/alfs.c:127-179 | the steps of the code for any path, with the outcome: refused if and only if the path is a directory or the table is full; on a working drive done if and only if there is room |
| `Alfs.Alfs.Mkdir` | kernel/alfs.c:181-198 | the steps of the code for any path: refused if and only if the path exists or the table is full |
| `Alfs.Alfs.Delete` | kernel/alfs.c:200-210 | the steps of the code: refused if and only if the path does not exist |
| `Alfs.Alfs.Pread` | kernel/alfs.c:212-248 | exactly content[off..min(off+len, size)], nothing else in the buffer, and only sectors of the extent |
| `Mkfs.Build` | tools/mkfs.c:85-155 | an image is made if and only if the items fit, with its superblock, one entry per item in order, byte by byte, and the bytes of the files one after the other; it keeps the invariant if and only if no path is repeated, and mounting it then gives exactly the tree the items describe |
| `Files.Files.OpenW` | kernel/syscall.c:387-422 | for any path: truncation leaves an empty file and offset 0, append leaves the file, or directory, and starts at its end; on a working drive truncation succeeds if and only if the path has at most 51 bytes, is no directory, and there is a slot and room |
| `Files.Files.Stage` | kernel/syscall.c:42-58 | the staging buffer holds the file up to the offset and the new bytes; on a working drive it fails only for an unused entry |
| `Files.Files.FileWrite` | kernel/syscall.c:42-64 | for any descriptor: the file becomes its bytes up to the offset, stale staging bytes if the offset is past its end, and the new ones; -1 and no change for an unused entry or over 4096 bytes; on a working drive it succeeds if and only if the entry is a file and there is room |
| `Files.StagedInside` | kernel/syscall.c:42-64 | up to the end of the file no stale byte is written |
| `Files.Files.WriteAll` | kernel/syscall.c:42-64 | successive writes through a truncating descriptor leave the concatenation and every other path alone; on a working drive all succeed if and only if the path may be written, the whole has at most 4096 bytes and there is room for it |
| `Elf.Loader.FillPage` | kernel/elf.c:109-129 | a page has the file bytes that fall on it and zeros |
| `Elf.Loader.LoadPage` | kernel/elf.c:102-133 | the page appears in the one address space as described, with its write permission, over whatever was there, and no view changes otherwise; on a working drive it fails only with no free frame |
| `Elf.Loader.LoadSegment` | kernel/elf.c:74-134 | all pages of the page-rounded segment appear, and only they |
| `Elf.Loader.ReadHeaders` | kernel/elf.c:43-71 | the headers are the file's bytes over what the buffers held; on a working drive they are accepted if and only if the identification, type, machine, entry size and count bytes are right; what the buffers hold afterwards |
| `Elf.Loader.Load` | kernel/elf.c:36-139 | bad headers are refused with nothing mapped; on success the address space has exactly the pages that meet [p_vaddr, p_vaddr + p_memsz) of a PT_LOAD, each with the bytes and the write bit of the last one, by the words of the table at e_phoff, and the entry point is e_entry; on a working drive it fails only with a segment that starts outside the user range or no free frame; other address spaces never change, and the header buffers are as read |
| `Elf.SeenHeader` | kernel/elf.c:43-60 | a file of at least 52 bytes is judged by its own header bytes, whatever hdr_buf held |
| `Elf.SeenTable` | kernel/elf.c:62-71 | all words of program headers inside the file are used as they are |
| `Elf.HeaderMeans` | kernel/elf.c:49-56 | the checks accept exactly the header bytes of a 32-bit i386 executable with one to eight program headers of 32 bytes |
| `Elf.SeenNothing` | kernel/elf.c:43-44 | an empty file or a directory leaves the buffers as they were |
| `Elf.ImagePage` | kernel/elf.c:74-135 | each page of the image is as the last segment that covers it describes it |
| `Elf.ImageKeys` | kernel/elf.c:74-135 | exactly the pages of the segments are in the image |
| `Elf.ImageByte` | kernel/elf.c:74-135 | every byte of such a page is the file byte at p_offset + (va - p_vaddr) inside the file part of that segment and 0 elsewhere |
| `Elf.ImageLoaded` | kernel/elf.c:74-135 | the image in the words of the table: which pages, and of each the bytes by p_offset, p_vaddr and p_filesz and the write bit by p_flags |
| `Elf.UserStart` | kernel/elf.c:80-84 | segments are accepted if and only if p_vaddr of every PT_LOAD with memory is from 0x08000000 to below 0xC0000000 |
| `Args.FitsExactly` | kernel/elf.c:145-183 | the size bound holds if and only if no string stops the loop and no word falls below the page |
| `Args.MiddleTooLong` | kernel/elf.c:159 | three strings of which the middle one does not fit: argc is 1 with an uninitialised pointer |
| `Args.PutStrings` | kernel/elf.c:152-163 | all strings are placed, apart, with their NULs and pointers to them; or argc is the index of the first one, from the last down, that would start below 64, and the pointers below it are uninitialised |
| `Args.PutPointers` | kernel/elf.c:169-174 | the NULL-terminated pointer array is in place below them |
| `Args.PushArgs` | kernel/elf.c:145-183 | for any arguments, what is on the stack; a program reads 0, argc and an argv that gives back every string if and only if they fit |
| `Args.ReadsExactly` | kernel/elf.c:145-183 | the two directions of that equivalence |

## Left out

- Devices, interrupts, assembly, the shell, nano and user programs: drivers, output and code above the kernel core.
- Path resolution: paths are taken as resolved.
- TLB and CR3 reloads: translations always come from the tables.
- Address-space teardown at exit and exec: sched_wait frees only the stack and the record, so nothing is conserved there.
- Shell redirection: it overwrites a pipe descriptor without closing it; the count theorem covers events that do not.
- Wall-clock time and tick wrap-around: a tick is a number.
- Pmm.InitMeansUsableRam: for entries that end at or below 2^44; Pmm.InitMeansAliases has no such bound.
- Pmm.VisitsWhole: for entries that end at or below 2^44; Pmm.VisitsAliases has no such bound.
- Frames that hold directories, tables and pages are assumed below 128 MB, as kernel/uvm.c:10-11 does: the allocator covers 256 MB (kernel/pmm.c:11) and the identity map 128 MB (kernel/paging.c:27), so a frame above that could not be reached through its physical address.
- Uvm.Vm.MapPage: the user range only, as kernel/uvm.h:36-37 asks of callers.
- Uvm.Vm.FreeFrom: the first slot is a parameter, so that the loop from slot 0 and the user range can be compared.
- Uvm.Vm.UserStore: ring-3 stores of one byte; stores by the kernel are Uvm.Vm.KernelStore.
- Cow.RunRefinesEager: runs without kernel stores; Cow.PokeIsolated says when one of those agrees with the copying machine.
- Frames are words or bytes, and zeroing or copying a page is one assignment.
- Heap.Heap.Alloc: the payload is at least the request only when adding 3 does not wrap (`Heap.BigEnough`).
- Heap.Heap.Free: for pointers that kmalloc returned and that are still live, or NULL.
- Sched.Scheduler.WaitTurn: the loop around it is the sequence of wait events of a run; freeing the record and stack is removal from the map.
- Pids and the tick counter do not wrap; task records are updated as whole records at their address.
- Pipes.StepInv: the loops between turns are runs of this machine, so waiting need not end.
- AlfsModel.RunRefines: a remount after a failed transfer is outside it; what survives then is AlfsModel.FailedWriteRemount, and AlfsMount.LaterMount says when one more operation before the mount is safe. Runs double no path, by the condition of AlfsModel.StepKeepsInv.
- Alfs.Alfs.Write: disks below 2^23 sectors, so that no sector number or size wraps.
- Alfs.Disk: a transfer past the end of the disk fails, and a failed write may leave anything in its own sectors.
- Mkfs.Build: command-line parsing and reading of host files; an item is a path with its bytes.
- Files.Files.FileWrite: offset plus length below 2^32.
- Files.Files.WriteAll: chunks short enough for that.
- Elf.Loader.LoadSegment: the segment does not wrap and ends below the kernel, as in Elf.Loader.Load.
- Elf.Loader.Load: segments that start in the user range do not wrap and end below the kernel; the source checks only where they start.
- Args.PushArgs: the bytes below the page that it can reach are part of the memory modelled, whatever they belong to.
