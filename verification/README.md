# A verified model of the Ktux kernel

Ktux is a small 32-bit x86 kernel. This project models the parts of it that carry
whole-run properties, in the form the kernel has them, and proves those properties.

- `Words.dfy`, `Sequences.dfy`: 32-bit words, memory by dwords and an option type; sequences
  without repetition.
- `Rings.dfy`: the intrusive circular list of `list.h`, on heap nodes whose `next` and
  `prev` fields are rewritten one store at a time. A ghost web maps every head to the
  sequence of its entries; every operation is proved against that sequence.
- `SchedModel.dfy`, `SchedMachine.dfy`, `SchedOverlap.dfy`, `SchedFairness.dfy`,
  `SchedSlices.dfy`, `SchedAccounting.dfy`: the scheduler of `process.c` as functions on its state; a machine
  whose events are the atomic steps between which the timer may fire, with the read and the
  store of `numThreads++` as two of them; what holds over every run, and what over every run
  in which no such store is lost; bounded waiting; the length of slices; the accounting of
  processor time.
- `Process.dfy`: the same functions carried out on thread structs, the slot table and a
  real list from `Rings`.
- `Context.dfy`, `Isr.dfy`: the register frames of `isr.s` on per-thread stacks, push by
  push, and what an interrupt gives back to the code it interrupts or resumes.
- `Terminal.dfy`, `Controls.dfy`, `Grid.dfy`, `Console.dfy`, `Scrollback.dfy`: the console of
  `video.c`; a terminal on a grid of rows; what each control character does, cell by cell; the flat frame buffer with its overlapping copy, shared by
  several consoles, refining that terminal; what is on the screen after any text.
- `Format.dfy`, `Printf.dfy`, `PrintfLaws.dfy`, `Directives.dfy`, `RoundTrip.dfy`: `do_printf`;
  a recursive-descent formatter with the same language; the one-pass machine proved equal to
  it; the laws of its output; formats from the writing side; the console reading back what the printer wrote.
- `Paging.dfy`, `BootTables.dfy`, `FreePages.dfy`, `Heap.dfy`, `Memory.dfy`: page walks, the
  recursive self-map, the boot tables, the free-page stack and the heap of `memory.c`, and
  all of them together from boot to the first allocations.
- `Copying.dfy`: what a copy by one upward pass does to overlapping ranges, for the kernel's
  `memcpy` and the loader's segment moves alike.
- `Fat12.dfy`, `Loader.dfy`, `Elf.dfy`, `BootKernel.dfy`, `ElfFile.dfy`: the boot loader's FAT12
  decoding, cluster-chain loading, ELF header checks and in-place relocation; all of it from
  the file on disk to the kernel's process image in memory; ELF files from the writing side.

Conventions. Words are integers below 2^32 and every C or assembly addition that can wrap
is written with `Wrap` (or `Wrap16`). Shifts and masks of contiguous bits are written as
division and remainder. Memory is a map or an array of bytes, cells or dwords. Port I/O,
the BIOS and the processor's page walk are parameters or plain functions of their inputs.
A `char` is signed, as the build has it, so one passed as an `unsigned` is extended by its
sign (`SignExtend`).

A run of the scheduler is orderly when every store of `numThreads` finds it as its creator
read it, and serial when nobody reads it between another's read and store. Serial runs are
orderly (`SerialIsOrderly`). That only the current thread is RUNNING, reaping, saved stack
pointers, accounting and contexts are stated for every run since boot. Orderly runs are where
the list and the table agree slot by slot and numThreads never falls; `AgreesThroughoutIff`,
`ReadSafeIff`, `ReachableDisagreement` and `LostStoreStarves` say what happens in the others,
and bounded waiting and the return of the timer interrupt have their exact conditions there.

Where the code does something other than its comments or callers expect, the model follows
the code and states the exact condition:

- `AgreesThroughoutIff`: over all runs since boot, the thread list and the slot table agree at
  every point if and only if every thread is published into an empty slot.
- `ReadSafeIff`, `SerialAgrees`, `ReachableDisagreement`, `OverlapMayAgree`: `numThreads++` in
  `alloc_pid` is not protected. After a serial run a read of `numThreads` is safe, whatever
  serially follows, if and only if nobody else stands between reading and storing it; serial
  runs agree throughout; a run in which two threads take one number and the second evicts the
  first from the table is reachable from boot; and an overlap whose numbers are never
  published does no harm yet, which is why the condition is on the continuations.
- `TickReturnsIff`, `OrderlyTickReturnsIff`: the timer interrupt returns exactly when the slice
  goes on or the scan can come to a slot whose thread can run; in orderly runs it fails to
  only when the slice of a zombie ends and nobody else can run.
- `TicksReachIff`, `LostStoreStarves`: the timer brings a ready thread to the processor exactly
  when the scan can come to its slot; after a lost store of `numThreads` a listed thread can
  stand above it and wait for ever.
- `TabFitsIff`: a tab leaves its row unless the width is a multiple of 8.
- `OverrunsIff`: `do_printf` runs past the terminator, whatever its arguments, exactly when
  the format ends right behind a percent sign or its zero flag.
- `OutcomeIff`: the arguments are misread exactly when they are not of the kinds the format
  asks for.
- `GlyphKeepsIff`: a character of a string is shown with the console's attribute if and only
  if it is below 0x80; from there on its sign bits overwrite the attribute.
- `EraseLeavesRegisters`, `MoveLeavesRegisters`: erasing the display and moving the cursor
  leave the hardware cursor where it was.
- `ListedHardwarePages`: five pages that belong to the hardware are on the free list.
- `ListingEndsIff`: listing the free pages ends exactly when memory ends below the last page
  of the address space.
- `AskedCoverBlockIff`, `AllAskedIff`: `sbrk` maps the page in use again and leaves the block's
  last page unmapped whenever it draws pages from an unaligned heap end; over a run, every
  page with bytes handed out is mapped if and only if no request does that.
- `LogicalRightIff`: an 8-bit multiplication limits the loader to clusters 2 to 257.
- `SameClustersIff`: the boot sector ends a chain at 0xFF0, the loader at 0xFF8; they read the
  same clusters exactly when no entry of the chain lies in between.
- `RootSectorsIff`: the loader sizes the root directory wrongly from 2048 entries on.
- `ChainEndsIff`: loading a file ends exactly when its chain never comes back to a cluster.
- `PreparedIsImageIff`: `prepareKernel` makes the process image exactly when there is a BSS and
  the data segment moves down or clear of itself; without a BSS the zeroing loop clears all
  of memory (`NothingPrepared`), and a segment moved up into itself is destroyed
  (`MovesIntactIff`).

## Model

| member | source | states |
|---|---|---|
| Rings.ListHead.constructor | src/include/list.h:47-50 | a fresh node is a ring of its own |
| Rings.InsertRing | src/include/list.h:62-69 | linking a node between two neighbours of a ring makes the ring of the sequence with that node inserted there |
| Rings.RemoveRing | src/include/list.h:104-108 | joining the neighbours of an entry makes the ring of the sequence without it |
| Rings.SameRing | src/include/list.h:43-45 | a ring none of whose nodes changes its links is still the same ring |
| Rings.InsertOk | src/include/list.h:62-69 | inserting a node outside every ring keeps all rings well formed and disjoint |
| Rings.DeleteOk | src/include/list.h:104-108 | deleting an entry keeps all remaining rings well formed and disjoint |
| Rings.SpliceOk | src/include/list.h:164-175 | moving one ring's entries in front of another's keeps all rings well formed and disjoint |
| Rings.Lists.Init | src/include/list.h:52-54 | a node outside every ring becomes an empty ring and no other ring changes |
| Rings.Lists.LinkBetween | src/include/list.h:62-69 | the four stores change exactly the four links, in the order of the source |
| Rings.Lists.Join | src/include/list.h:104-108 | the two stores change exactly the two links |
| Rings.Lists.ListAdd | src/include/list.h:79-82 | the head's sequence gains the node in front; no other ring changes |
| Rings.Lists.ListAddTail | src/include/list.h:92-95 | the head's sequence gains the node at its end; no other ring changes |
| Rings.Lists.ListDel | src/include/list.h:115-120 | the entry leaves the sequence of whichever ring it is on and its links are null |
| Rings.Lists.ListDelInit | src/include/list.h:126-130 | the entry leaves its ring and becomes an empty ring |
| Rings.Lists.ListMove | src/include/list.h:137-141 | the entry leaves its ring and heads the other one, which may be the same |
| Rings.Lists.ListMoveTail | src/include/list.h:148-153 | the entry leaves its ring and ends the other one, which may be the same |
| Rings.Lists.ListEmpty | src/include/list.h:159-162 | true exactly for a head whose sequence is empty |
| Rings.Lists.Chain | src/include/list.h:164-175 | the splice's stores, then the donor's, change exactly these links |
| Rings.Lists.ListSpliceInit | src/include/list.h:195-202 | the head's sequence becomes the donor's followed by its own, the donor's becomes empty, no other ring changes |
| Rings.Lists.ForEach | src/include/list.h:218-220 | the traversal ends and yields the sequence |
| Rings.Lists.ForEachPrev | src/include/list.h:226-228 | the traversal ends and yields the sequence reversed |
| Rings.Lists.ForEachSafe | src/include/list.h:236-238 | with any choice of entries deleted while current, every original entry is visited once, in order, and exactly the others survive |
| SchedModel.FirstBelow | src/kernel/process.c:149-159 | below numThreads the scan stops only at a runnable slot of the table |
| SchedModel.ScanFinds | src/kernel/process.c:149-159 | the scan stops at the cyclically first runnable slot after the current one: every slot before it is not runnable |
| SchedModel.ScanEndsIff | src/kernel/process.c:149-159 | the scan stops at all, and then within as many steps as there are threads, if and only if some slot is runnable |
| SchedMachine.BootInv | src/kernel/process.c:57-64 | the cleared table satisfies the invariant |
| SchedMachine.NothingLeftOut | src/kernel/process.c:167-256 | at every point of kill and create_kernel_thread, and outside them, everything the running thread can do next is an event of the machine |
| SchedMachine.BootLeavesNothingOut | src/kernel/process.c:57-112 | so is everything the boot code can do before and in start_scheduler |
| SchedMachine.StepKeepsInv | src/kernel/process.c:114-256 | every atomic step of ticks, yield, kill, nice, numbering, creation and start keeps the invariant, a store of numThreads if it loses no other |
| SchedMachine.RunKeepsInv | src/kernel/process.c:114-256 | every orderly interleaving, with ticks anywhere between the pieces of alloc_pid, create and kill too, keeps the invariant |
| SchedMachine.RunKeepsSound | src/kernel/process.c:114-256 | every run, lost stores of numThreads included, keeps every pointer a thread's, at most the current thread RUNNING, the current thread not reaped and the quanta bounded |
| SchedMachine.OnlyCurrentRuns | src/kernel/process.c:114-165 | in every run since boot only the current thread is RUNNING, and it is not a reaped one |
| SchedMachine.AgreementAlways | src/kernel/process.c:174-256 | in every orderly run since boot the listed threads are exactly those in non-empty slots, once each, and only the current thread is RUNNING |
| SchedMachine.TickKeepsInv | src/kernel/process.c:114-165 | a tick keeps the invariant, whichever thread it reaps or dispatches |
| SchedMachine.KillKeepsInv | src/kernel/process.c:174-177 | a thread marked as zombie but still listed is an allowed state |
| SchedMachine.UnlinkKeepsInv | src/kernel/process.c:177-181 | the part of kill between cli and sti restores agreement of list and table |
| SchedMachine.ReadKeepsInv | src/kernel/process.c:253-256 | a thread that has read numThreads and not yet stored it is an allowed state |
| SchedMachine.StoreKeepsInv | src/kernel/process.c:222-230 | a store that loses no other makes a numbered, unpublished thread, nobody else's and not yet listed |
| SchedMachine.PublishKeepsInv | src/kernel/process.c:233-236 | publishing puts the thread in list and table together |
| SchedMachine.StartKeepsInv | src/kernel/process.c:101-112 | starting the scheduler makes thread 0 current |
| SchedMachine.SerialIsOrderly | src/kernel/process.c:253-256 | if nobody reads numThreads between another's read and store, no store is lost |
| SchedMachine.ReapedForever | src/kernel/process.c:131-137 | a thread reaped in any run since boot is never current again, whatever comes after |
| SchedMachine.TickReturnsIff | src/kernel/process.c:120-159 | in any state the timer interrupt returns if and only if the slice goes on or the scan can come to a slot whose thread can run, be it below numThreads or, once it stands above, up the table |
| SchedMachine.OrderlyTickReturnsIff | src/kernel/process.c:120-159 | in an orderly run it returns unless the slice of a zombie has ended and no other thread is runnable, and only then |
| SchedMachine.RunSaves | src/kernel/process.c:140-145 | over any run the saved stack pointer of a thread is the one it was last suspended with, or its first |
| SchedMachine.DispatchReturnsLastSaved | src/kernel/process.c:140-164 | in every run since boot a tick that switches to a thread returns the stack pointer that thread was last suspended with, or its initial frame |
| SchedOverlap.PublishAgreesIff | src/kernel/process.c:233-236 | publishing keeps list and table in agreement if and only if the slot of the thread's id is empty |
| SchedOverlap.AgreesThroughoutIff | src/kernel/process.c:174-256 | in every run since boot, lost stores included, list and table agree at every point if and only if every thread is published into an empty slot |
| SchedOverlap.SerialAgrees | src/kernel/process.c:253-256 | serial runs since boot agree at every point |
| SchedOverlap.OverlapBreaks | src/kernel/process.c:253-256 | from a state where one creator has read numThreads, a second read can go on, serially, to a table that has lost a listed thread |
| SchedOverlap.ReadSafeIff | src/kernel/process.c:253-256 | after a serial run, every serial continuation of a read keeps list and table in agreement if and only if nobody stands between read and store |
| SchedOverlap.ReachableDisagreement | src/kernel/process.c:253-256 | a run from boot, with the scheduler started, in which the list names a thread the table does not |
| SchedOverlap.OverlapMayAgree | src/kernel/process.c:253-256 | a run from boot with overlapping reads that agrees at every point |
| SchedOverlap.LostStoreStarves | src/kernel/process.c:149-159 | a run from boot after which a listed thread, ready in its own slot, is never dispatched by any number of ticks, though the timer interrupt always returns |
| SchedFairness.ScanApproaches | src/kernel/process.c:149-159 | the scan never jumps over a runnable slot |
| SchedFairness.SwitchProgress | src/kernel/process.c:129-164 | when a slice ends the waiting thread is dispatched or is strictly closer |
| SchedFairness.TickProgress | src/kernel/process.c:114-165 | every tick dispatches the waiting thread or strictly decreases its patience |
| SchedFairness.OtherProgress | src/kernel/process.c:167-251 | no other event increases the patience of a thread that keeps its place |
| SchedFairness.BoundedWaiting | src/kernel/process.c:114-165 | in any run in which a ready thread keeps its slot among at most n, below numThreads, and the scan goes round there too, it is dispatched within 128 ticks per slot, whatever yield, kill, nice and creation do in between |
| SchedFairness.OrderlyKeepsPlace | src/kernel/process.c:114-256 | in an orderly run a published thread keeps its place until it is dispatched |
| SchedFairness.OrderlyBoundedWaiting | src/kernel/process.c:114-165 | in any orderly run with at most n slots a waiting thread is dispatched within (n-1)*128 ticks |
| SchedFairness.AboveProgress | src/kernel/process.c:149-159 | with the scan above numThreads, every tick dispatches the thread in a higher slot or comes closer to it |
| SchedFairness.TicksReachIff | src/kernel/process.c:114-165 | in any run, some number of ticks dispatches a ready thread if and only if the scan can come to a slot that holds it |
| SchedSlices.SwitchEndsSlice | src/kernel/process.c:129-164 | a tick that finds the quantum 0 saves the thread with its stack pointer and one more tick, or reaps it with number 0 and its stack empty, and leaves a thread current, in its slot, with 64 - priority ticks; nothing else changes |
| SchedSlices.TicksInside | src/kernel/process.c:120-127 | ticks inside a slice are charged to the current thread, count its quantum down and change nothing else |
| SchedSlices.SliceLength | src/include/process.h:54 | a slice is 64 - priority ticks long: that many ticks find and leave the thread current, and the next one ends the slice |
| SchedSlices.GreaterIsShorter | src/include/process.h:54 | the greater priority number gets the strictly shorter slice, from 127 ticks at -63 to one at 63 |
| SchedSlices.NiceSets | src/kernel/process.c:242-251 | nice changes the priority to numbers from -63 to 63 and nothing else, and ignores all others |
| SchedSlices.NextSlice | src/kernel/process.c:162 | whatever happens in between, a thread's next slice is 64 ticks less the last number nice gave it in range |
| SchedSlices.FirstSlice | src/kernel/process.c:222-230 | a thread's first slice is 64 ticks long unless nice was used on it before |
| SchedSlices.YieldEndsSlice | src/kernel/process.c:167-172 | a tick straight after yield ends the slice, however much of it was left |
| SchedSlices.Created | src/kernel/process.c:222-230 | the struct of a new thread, its number, priority, times and stack, and that nobody lists it |
| SchedSlices.PublishedFirst | src/kernel/process.c:233-236 | a published thread heads the list and has the slot of its number |
| SchedSlices.SchedulerStarts | src/kernel/process.c:101-112 | thread 0 starts with nothing charged and an empty slice, which the first tick ends; with a full table nothing happens |
| SchedAccounting.TickCharges | src/kernel/process.c:120-145 | a tick charges the thread it finds current, unless it reaps it, and nobody else |
| SchedAccounting.RunCharges | src/kernel/process.c:114-238 | over any run a thread's time grows by the ticks charged to it |
| SchedAccounting.TimeIsTicks | src/kernel/process.c:120-145 | in every run since boot a thread's time is the number of ticks it was current for and survived, in 32 bits |
| Process.NodesAt | src/kernel/process.c:55 | the k-th node on lThreads belongs to the k-th listed thread |
| Process.NodesWithout | src/kernel/process.c:179 | taking a thread's node off the ring takes the thread off the list |
| Process.KernelThread.constructor | src/kernel/process.c:222-230 | a new struct's fields |
| Process.Scheduler.constructor | src/kernel/process.c:57-64 | an empty table and an empty list |
| Process.Scheduler.AccountTick | src/kernel/process.c:122-127 | the fields change as a tick inside a slice says, and nothing else does |
| Process.Scheduler.RetireCurrent | src/kernel/process.c:129-145 | the outgoing thread is reaped or saved, and nothing else changes |
| Process.Scheduler.Probe | src/kernel/process.c:152-158 | true exactly for a slot the scan may stop at, whose thread is then the current one |
| Process.Scheduler.Scan | src/kernel/process.c:149-159 | the loop over the real slot table, whether it starts below numThreads or not, ends at the slot the specification names |
| Process.Scheduler.DispatchCurrent | src/kernel/process.c:161-164 | the found thread gets a slice, runs, and its saved stack pointer is returned |
| Process.Scheduler.TaskSwitch | src/kernel/process.c:114-165 | state and result are those of the specification |
| Process.Scheduler.ZeroQuantum | src/kernel/process.c:169 | yield gives up the slice |
| Process.Scheduler.MarkSelfZombie | src/kernel/process.c:176 | kill marks the current thread |
| Process.Scheduler.UnlinkSelf | src/kernel/process.c:177-181 | the current thread leaves the ring and its slot; list and ring still agree |
| Process.Scheduler.NiceSelf | src/kernel/process.c:242-246 | the priority changes only within the bounds |
| Process.Scheduler.NiceOther | src/kernel/process.c:247-251 | the other thread's priority changes only within the bounds |
| Process.Scheduler.ReadCount | src/kernel/process.c:253-256 | the number a creator reads |
| Process.Scheduler.NewThread | src/kernel/process.c:222-230 | a fresh thread with the number its creator read, unpublished; numThreads is that number plus 1 |
| Process.Scheduler.PublishThread | src/kernel/process.c:233-236 | the thread heads the ring and fills the slot of its id; list and ring still agree |
| Process.Scheduler.StartScheduler | src/kernel/process.c:101-112 | thread 0 becomes current with its times cleared |
| Context.SaveRestore | src/kernel/isr.s:81-107 | after saving, the frame of the registers is at the new stack pointer |
| Context.FrameRestores | src/kernel/isr.s:94-107 | restoring from a frame gives back every register, the stack pointer included |
| Context.FirstFrame | src/kernel/process.c:196-227 | the frame built for a new thread is the one its first registers are restored from, the stack pointer at the top |
| Context.FirstFrameStarts | src/kernel/process.c:199-220 | restoring the fifteen words gives the entry point, an empty stack, the kernel's segments 0x18 and 0x20, zeroes, and EFLAGS 0x202, with interrupts on |
| Context.InterruptKeeps | src/kernel/isr.s:248-277 | an interrupt writes to no stack but the one it came on |
| Context.WorkKeepsInv | src/kernel/process.c:167-238 | ordinary work of the running code keeps every suspended thread's registers on its own stack |
| Context.OwnFrame | src/kernel/isr.s:248-264 | the interrupted registers are on the interrupted stack whatever the handler scribbles below |
| Context.OtherFrame | src/kernel/isr.s:248-264 | every other suspended thread's frame survives the handler |
| Context.SwitchResumes | src/kernel/isr.s:248-277 | an interrupt that switches loads exactly the registers the resumed thread was suspended with |
| Context.TickResumes | src/kernel/isr.s:248-277 | an interrupt that does not switch gives the interrupted code its registers back |
| Context.RunKeepsSystem | src/kernel/isr.s:248-277 | every run of work and interrupts keeps the system invariant |
| Context.BootSystemInv | src/kernel/process.c:57-64 | the boot code, before any thread exists, starts such a run |
| Context.ContextPreserved | src/kernel/isr.s:248-277 | after any run, lost stores of numThreads included, an interrupt returns the same registers to the same thread or the saved registers of the one it switches to |
| Context.FirstDispatch | src/kernel/process.c:196-230 | however long it takes, the first dispatch of a thread gives it exactly those registers, with its stack base + 0x200, and the next timer interrupt can come at once |
| Isr.Cpu.PushAd | src/kernel/isr.s:82 | eight registers on the stack, with the stack pointer found on entry |
| Isr.Cpu.PopAd | src/kernel/isr.s:106 | eight words taken off, the stored stack pointer skipped |
| Isr.Cpu.RegsSave | src/kernel/isr.s:81-92 | twelve words on the stack, and the kernel's data segments loaded |
| Isr.Cpu.RegsRestore | src/kernel/isr.s:94-107 | the registers are the words of the frame |
| Isr.Cpu.SaveContext | src/kernel/isr.s:248-251 | memory is the old one with the frame of the interrupted registers below the stack pointer |
| Isr.Cpu.RestoreContext | src/kernel/isr.s:265-277 | the registers are those restored from the stack pointer given |
| Isr.Cpu.Handler20 | src/kernel/isr.s:248-277 | the scheduler takes one task switch, and the registers are restored from the stack pointer it returns |
| Isr.Cpu.BuildFrame | src/kernel/process.c:199-220 | fifteen pushes leave exactly the initial frame |
| Terminal.SetAttribRenders | src/kernel/video.c:82-107 | 0 and 1 switch bold, 30-37 and 40-47 set one colour with red and blue exchanged, everything else nothing; the attribute stays below 0x80 |
| Terminal.TabFitsIff | src/kernel/video.c:270-279 | tabs stay on their row for every cursor if and only if the width is a multiple of 8 |
| Terminal.BitOrBits | src/kernel/video.c:298 | the bitwise or of character and attribute has exactly the bits of both |
| Terminal.GlyphKeepsIff | src/kernel/video.c:293-300 | a character of a string, which reaches the console extended by its sign, keeps the console's attribute if and only if it is below 0x80 |
| Terminal.PutSized | src/kernel/video.c:151-312 | after any 32-bit character the cursor is on the grid, the escape state at most 4 and the attribute below 0x80 |
| Controls.BackspaceErases | src/kernel/video.c:259-268 | backspace blanks exactly the cell left of the cursor and goes there, and in column 0 does nothing |
| Controls.ReturnGoesHome | src/kernel/video.c:281-282 | carriage return goes to column 0 and changes no cell |
| Controls.TabBlanks | src/kernel/video.c:270-279 | tab blanks from the cursor to the next column that is a multiple of 8 and goes there, or on to the next row from the right edge |
| Controls.NewlineAdvances | src/kernel/video.c:287-291 | newline goes to the start of the next row, and in the last row moves every row up by one and blanks the last |
| Controls.PrintableShows | src/kernel/video.c:293-305 | any other character is shown in the cell at the cursor, below 0x80 in the console's attribute, and no other cell changes but by scrolling |
| Controls.OtherControls | src/kernel/video.c:250-256 | every other control character changes nothing, but that ESC begins a sequence |
| Controls.SequenceEnds | src/kernel/video.c:171-249 | within a sequence a semicolon goes to the next of three parameters, and any character without a meaning in its place ends it and does nothing |
| Controls.ErasesAll | src/kernel/video.c:184-193 | ESC[2J blanks every cell and goes to the upper left corner |
| Controls.CursorFollows | src/kernel/video.c:160-312 | the hardware cursor is moved after every character outside an escape sequence but ESC |
| Grid.RowsStore | src/kernel/video.c:297-298 | storing one cell of the flat window changes one cell of one row |
| Grid.RowsScroll | src/kernel/video.c:70-75 | moving the cells up and filling the rest drops the first row and appends one |
| Grid.RowsFill | src/kernel/video.c:190-191 | filling the window makes every row blank |
| Console.MemCpy | src/kernel/string.c:5-15 | one upward pass, whatever the overlap: each cell is copied as the pass has left it |
| Console.MemSetW | src/kernel/string.c:17-24 | the range is filled and nothing else changes |
| Console.RaiseCells | src/kernel/video.c:70-75 | in the range the cells above the first gone ones move down to its start and the rest is filled; nothing else changes |
| Console.Crtc.OutPair | src/kernel/video.c:116-119 | the register pair holds the 16-bit value |
| Console.CountFits | src/kernel/video.c:360-362 | as many windows as fit 32K of display memory, but no more than 12 |
| Console.Spaced | src/kernel/video.c:369-370 | windows do not overlap and end inside the display memory |
| Console.Adjacent | src/kernel/video.c:369-370 | the windows follow one another from the start of display memory |
| Console.HowMany | src/kernel/video.c:360-362 | the number of windows |
| Console.Video.constructor | src/kernel/video.c:355-371 | as many consoles as fit, with disjoint windows, cursors at the origin and attributes of their own |
| Console.InitConsole | src/kernel/video.c:339-376 | the same, with the first console current, the display starting at its window and the cursor registers at its cursor |
| Console.Video.Scroll | src/kernel/video.c:60-78 | below the last row the first one is dropped and a blank one appended, else nothing happens |
| Console.Video.Clear | src/kernel/video.c:186-194 | every row of the window is blank |
| Console.Video.Tab | src/kernel/video.c:270-279 | the cells up to the next tab stop are blanked |
| Console.Video.ApplyAttrib | src/kernel/video.c:82-107 | the attribute is that of the specification |
| Console.Video.CursorOffset | src/kernel/video.c:114-115 | the cursor's offset lies in the console's window and fits in 16 bits |
| Console.Video.MoveCsr | src/kernel/video.c:110-120 | the cursor registers hold the offset of the current console's cursor, other registers keep their values |
| Console.Video.SelectVc | src/kernel/video.c:135-148 | a valid number makes that console current and starts the display at its window; others do nothing |
| Console.Video.SettleCursor | src/kernel/video.c:301-306 | wrapping and scrolling on the flat buffer are those of the grid terminal |
| Console.Video.PutPlain | src/kernel/video.c:250-306 | a character outside escape sequences changes the window as it changes the grid terminal |
| Console.Video.PutStep | src/kernel/video.c:160-306 | every character in every escape state changes the console as it changes the grid terminal |
| Console.Video.PutchHelp | src/kernel/video.c:151-312 | the console refines the grid terminal for every 32-bit character, no cell outside its window changes, every other console looks as before; the cursor registers hold the current console's cursor after plain characters and are untouched by characters of escape sequences |
| Console.Video.Isolated | src/kernel/video.c:157 | a change inside one window leaves the view of every other console |
| Scrollback.LayoutParts | src/kernel/video.c:287-305 | a laid-out text is the rows above the cursor and the current row |
| Scrollback.AfterNewline | src/kernel/video.c:287-291 | a newline finishes the current row and starts an empty one |
| Scrollback.AfterChar | src/kernel/video.c:293-305 | a character extends the current row and, when the row is full, starts an empty one |
| Scrollback.VisibleSnoc | src/kernel/video.c:60-78 | one more row drops the first visible one exactly when the page is full |
| Scrollback.ScrollbackTheorem | src/kernel/video.c:60-78 | from a cleared console, after any text, the rows are exactly the last ones of the text wrapped at the width, and the cursor is at its end |
| Printf.ConvertDigits | src/kernel/stdio.c:172-186 | the buffer, filled backwards, holds the digits and a terminator, within its 32 bytes |
| Printf.WordFits | src/kernel/stdio.c:23-26 | a 32-bit number has at most eleven digits in any of the radixes |
| Printf.Emit2 | src/kernel/stdio.c:212-242 | padding, sign and text in the order the flags ask for |
| Printf.Emit | src/kernel/stdio.c:201-242 | the text as a field of the given width |
| Printf.Fetch | src/kernel/stdio.c:141-169 | the magnitude and sign of the next argument, with 32-bit negation |
| Printf.DoNumber | src/kernel/stdio.c:141-187 | the digits of the argument as a field |
| Printf.Convert | src/kernel/stdio.c:117-246 | a conversion prints what the formatter renders, an unknown one nothing |
| Printf.TakeFlag | src/kernel/stdio.c:53-76 | the machine's flag state, run on the format, is the formatter's |
| Printf.TakeSpec | src/kernel/stdio.c:79-114 | the machine's width and modifier states, run on the format, are the formatter's |
| Printf.Conclude | src/kernel/stdio.c:116-249 | the machine's conversion state is the formatter's |
| Printf.DoPrintf | src/kernel/stdio.c:28-253 | the one-pass machine prints what the recursive-descent formatter prescribes for every format and returns the count of characters printed |
| PrintfLaws.DigitsValue | src/kernel/stdio.c:172-186 | the digits evaluate back to the number and have no leading zero |
| PrintfLaws.FieldLength | src/kernel/stdio.c:212-242 | a field is as wide as the wider of its given and actual width |
| PrintfLaws.FieldLayout | src/kernel/stdio.c:201-242 | text, sign and padding are where justification and zero flag put them, whatever width is counted for the text |
| PrintfLaws.NumberRead | src/kernel/stdio.c:141-169 | sign and magnitude of a numeric conversion are the two's complement reading of the argument, in 16 bits after h and in 32 otherwise |
| PrintfLaws.NumericField | src/kernel/stdio.c:141-242 | X, x, p and n print the numeral of the argument in base 16, d and i in 10 with a sign, u in 10, o in 8: with capital letters for X and small ones else, as a field of the width; the argument is read in 32 bits, or in its low 16 after h |
| PrintfLaws.TextField | src/kernel/stdio.c:188-200 | c prints the low byte of its argument, NUL as nothing but a column, s the string, any other letter nothing; the zero flag does not count |
| PrintfLaws.ArgumentsUsed | src/kernel/stdio.c:141-200 | a conversion uses up one argument, two with L and no l, none for a letter without a meaning |
| Directives.NumeralUnique | src/kernel/stdio.c:172-186 | a number is written in a base in one way only, so that what is printed is determined |
| Directives.ReadsSpelled | src/kernel/stdio.c:53-116 | every directive that can be spelled, flags, width, modifiers and letter, is read back as what it says |
| Directives.PlainPieces | src/kernel/stdio.c:41-67 | ordinary characters are copied, %% and %-% print a percent sign, %-- prints nothing |
| Directives.DirectivePiece | src/kernel/stdio.c:48-252 | a directive prints what its conversion does, and the rest of the format follows with the next argument |
| Directives.CutPiece | src/kernel/stdio.c:53-114 | a format that ends within a directive prints nothing for it |
| PrintfLaws.PastIff | src/kernel/stdio.c:48-76 | after a percent sign the scan leaves the format exactly when only the zero flag, possibly after a minus, remains |
| PrintfLaws.OverrunsIff | src/kernel/stdio.c:36-76 | the scan of the format, which no argument influences, passes the terminator exactly when the format ends right behind a percent sign or its leading zero flag |
| PrintfLaws.OutcomeIff | src/kernel/stdio.c:36-249 | a call misreads its arguments exactly when they do not fit the kinds the format asks for, and overruns the format exactly when they do fit and the scan overruns |
| PrintfLaws.Vsprintf | src/kernel/stdio.c:272-289 | the buffer gets exactly the counted characters and one terminator |
| RoundTrip.DigitsReadBack | src/kernel/video.c:173-178 | the decimal digits of any 32-bit number, fed to a console collecting a parameter, leave that number there and change nothing else |
| RoundTrip.FormatsU | src/kernel/stdio.c:135-187 | %u prints the decimal digits of its argument |
| RoundTrip.Sgr3Prints | src/kernel/stdio.c:28-253 | the format ESC[%u;%u;%um prints the sequence with the three numbers in decimal |
| RoundTrip.Sgr3Applies | src/kernel/video.c:160-249 | that sequence, on an idle console, changes no cell and no cursor and applies the three renditions in order |
| RoundTrip.Sgr1Applies | src/kernel/video.c:195-198 | ESC[am applies one rendition and changes no cell and no cursor |
| RoundTrip.Sgr2Applies | src/kernel/video.c:225-230 | ESC[a;bm applies two in order and changes no cell and no cursor |
| RoundTrip.CursorMoves | src/kernel/video.c:202-231 | ESC[r;cH, with the numbers in decimal, moves the cursor to each coordinate that is on the screen, counted from 0, and changes nothing else (CUP, section 8.3.21 of ECMA-48, there counted from 1) |
| RoundTrip.DisplayErased | src/kernel/video.c:171-199 | ESC[2J blanks every row and homes the cursor, any other number does nothing (ED, section 8.3.39 of ECMA-48) |
| RoundTrip.EraseLeavesRegisters | src/kernel/video.c:171-199 | ESC[nJ leaves the cursor registers where they were |
| RoundTrip.MoveLeavesRegisters | src/kernel/video.c:202-231 | ESC[r;cH leaves the cursor registers where they were |
| RoundTrip.PlainPrints | src/kernel/stdio.c:41-47 | text without a percent sign is printed as it is |
| RoundTrip.KprintfHelp | src/kernel/stdio.c:256-261 | one more character for the current console, its view and the cursor registers being those of the characters so far |
| Words.SameSigned | src/include/stdio.h:7 | a char passed as an unsigned word is the same signed number |
| RoundTrip.ShowText | src/kernel/stdio.c:263-270 | text printed on a cleared console leaves its last rows, wrapped at the width, in the frame buffer, each character as GlyphKeepsIff says, and the hardware cursor behind it |
| RoundTrip.Kprintf | src/kernel/stdio.c:256-270 | a call that neither overruns the format nor misreads its arguments gives the current console the formatter's characters, each extended by its sign, and the cursor registers follow the plain ones |
| RoundTrip.SetRendition | src/kernel/stdio.c:263-270 | kprintf of ESC[%u;%u;%um on an idle console changes nothing but the attribute and the collected numbers, and applies the three renditions in order |
| Paging.SelfMapReaches | src/include/memory.h:105-107 | through the self-map, the linear address of a page's entry is that entry |
| Paging.StoreMisses | src/kernel/memory.c:508 | the entry written is no directory entry and no other page's |
| Paging.MapPageMaps | src/kernel/memory.c:472-515 | after mapping, the walk of the page gives the physical page and every other walk is as before |
| Paging.EntryStored | src/include/memory.h:116-122 | map_page_helper stores, where the self-map finds it, the frame of phys with exactly the low twelve bits of flags, and changes no other dword |
| Paging.MapPageGrants | src/kernel/memory.c:472-515 | the page can be written, or reached by the user, exactly when flags and the directory entry have the bit; every other page keeps its rights |
| Paging.SelfRegionIsDirectory | src/kernel/memory.c:269 | inside the self-map region the entry written is a directory entry |
| Paging.MapPagesMaps | src/kernel/memory.c:518-530 | over a range of pages, from the one virt lies in and around the end of the address space, every address goes to its place, or nowhere without the present flag, and every other walk is as before |
| Paging.MapPagesGrants | src/kernel/memory.c:518-530 | the pages of a range can be written, or reached by the user, exactly when flags and the directory entry have the bit; every other page keeps its rights |
| Paging.Pager.MapPageHelper | src/kernel/memory.c:472-515 | the store through virtual memory has the effect specified |
| Paging.Pager.MapPageRange | src/kernel/memory.c:518-530 | whole pages are mapped one by one; any other size does nothing |
| BootTables.Boot.FillTable | src/kernel/memory.c:123-157 | a table maps consecutive pages up to the limit and nothing after it, and no other memory changes |
| BootTables.Boot.MapKtables | src/kernel/memory.c:533-544 | one directory entry for the kernel's table |
| BootTables.Boot.BuildTables | src/kernel/memory.c:112-173 | the two tables and the directory are as booting needs them |
| BootTables.BootWalk | src/kernel/memory.c:112-173 | the walk of every address: identity below the rounded start of free memory, the kernel at its linear base, nothing else |
| BootTables.BootEntries | src/kernel/memory.c:123-169 | every dword of the boot tables and the directory: present entries have their frame and the flags 3, all others 2 |
| BootTables.BootGrants | src/kernel/memory.c:123-169 | whatever the boot tables map is the kernel's to write and closed to the user |
| BootTables.InitHeap | src/kernel/memory.c:242-269 | the self-map is in place, the heap's table can be mapped into, its first page is mapped, every dword of the directory is what it should be, and nothing else moved |
| BootTables.HeapGrants | src/kernel/memory.c:254-269 | whatever is mapped outside the heap, and the heap's first page, is the kernel's to write and closed to the user, and so is the heap's table |
| BootTables.HeapReady | src/kernel/memory.c:258-269 | from the boot tables, the three stores give a self-mapped directory and disturb no other walk |
| FreePages.FreeListIs | src/kernel/memory.c:193-233 | the list is strictly ascending and holds exactly the free pages |
| FreePages.FreeListSafe | src/kernel/memory.c:193-233 | every listed page is aligned, above the kernel's tables, below the end of memory and not strictly inside a reserved region, and the list fits its memory |
| FreePages.FreePagesAre | src/kernel/memory.c:193-233 | the list page by page: everything from 0x9000 to the end of memory but 31 + 7 + 39 + 15 pages below 1M |
| FreePages.ListingEndsIff | src/kernel/memory.c:193 | the loop over memory ends if and only if memory ends below the last page of the address space |
| FreePages.ListedHardwarePages | src/kernel/memory.c:216-222 | the free pages that overlap a reserved region are exactly five |
| FreePages.CountRegions | src/kernel/memory.c:188-189 | the number of regions before the end marker |
| FreePages.ScanRegions | src/kernel/memory.c:216-223 | finds whether the page is strictly inside a region |
| FreePages.Listed | src/kernel/memory.c:200-233 | the chain of shortcuts lists a page exactly when it is free |
| FreePages.BuildFreeList | src/kernel/memory.c:193-236 | the loop fills the list with exactly the free pages in order, within its memory |
| FreePages.PageStack.AllocPage | src/kernel/memory.c:587-608 | the last page of the list, which is cleared and dropped, or 0 |
| FreePages.PageStack.AllocRun | src/kernel/memory.c:587-608 | a run hands out the list from the top down, then 0 |
| FreePages.AllocationsDistinct | src/kernel/memory.c:587-608 | on the boot list the pages handed out are distinct, descend, and are followed by 0 forever |
| Heap.DrawsStep | src/kernel/memory.c:399-415 | the loop goes on exactly while pages are missing between the old and the new end |
| Heap.AskedCoverBlockIff | src/kernel/memory.c:407-415 | the pages asked for cover the new block if and only if the heap's end was aligned or no page was needed, and otherwise the page in use is asked for again |
| Heap.AllAskedIff | src/kernel/memory.c:399-422 | from a page boundary, a run asks for every page that holds bytes it handed out if and only if no request drew pages from within a page, and exactly then no page that held earlier bytes is asked for again |
| Heap.ReplacesIff | src/kernel/memory.c:399-422 | from any heap end, a page that held earlier bytes is asked for again exactly when some request drew pages from within a page |
| Heap.MapEachMaps | src/kernel/memory.c:407-415 | each page asked for is where it was put, every other walk is as before |
| Heap.MapEachGrants | src/kernel/memory.c:410-414 | each page asked for is the kernel's to write and closed to the user, every other page keeps its rights |
| Heap.BlocksDisjoint | src/kernel/memory.c:349-426 | blocks of a run do not overlap and lie in the heap |
| Heap.PagesFromStart | src/kernel/memory.c:399-415 | from the start of the heap the pages drawn are those of the bytes handed out, rounded up |
| Heap.KernelHeap.DrawNext | src/kernel/memory.c:410-414 | the next free page is mapped at the next page of the request |
| Heap.KernelHeap.Sbrk | src/kernel/memory.c:391-426 | draws exactly the missing pages, maps them, and moves the end by the bytes asked for |
| Heap.KernelHeap.KMalloc | src/kernel/memory.c:349-389 | each of the three ways of allocating, with the carried bytes unchanged outside the first |
| Heap.KernelHeap.KMallocRun | src/kernel/memory.c:349-426 | over any run nothing stays carried, every block starts after the bytes handed out before it, the pages drawn telescope, every address in a page some request asked for is mapped, writable and closed to the user, and every other translates as before with the rights it had |
| Memory.InitMemory | src/kernel/memory.c:95-270 | from any memory, booting yields a heap whose tables, free pages and first page are in place and which has room for 4MB |
| Memory.FirstAllocations | src/kernel/memory.c:349-426 | from boot, blocks follow one another from the heap's start and the pages drawn are those their bytes fill; if no request drew pages from within a page every byte handed out is mapped, writable and closed to the user, otherwise some page in use was never asked for |
| Fat12.DecodePacked | src/osloader/klLoadKernel.s:632-653 | both decoders read back every entry of a table packed two to three bytes |
| Fat12.DecodersAgree | src/osloader/bootsect.s:194-211 | on any table the parity decoder and the carry decoder agree and yield 12 bits |
| Fat12.RootSectorsIff | src/osloader/klLoadKernel.s:258-263 | the loader's size of the root directory is right if and only if it has fewer than 2048 entries |
| Fat12.LogicalRightIff | src/osloader/klLoadKernel.s:976-1003 | a cluster is found on the disk if and only if it is at most 257 |
| Fat12.ClustersTile | src/osloader/klLoadKernel.s:976-1003 | the clusters follow one another from behind the reserved sectors, the tables and the root directory |
| Fat12.AddressesAgree | src/osloader/bootsect.s:303-307 | both loaders address the same sectors |
| Fat12.ChsRightIff | src/osloader/klLoadKernel.s:1016-1025 | the BIOS is asked for the right sector if and only if it is on the first 256 tracks, always at a head and sector the drive has |
| Fat12.ChainUnique | src/osloader/klLoadKernel.s:632-660 | a cluster has at most one chain |
| Fat12.ChainAcyclic | src/osloader/klLoadKernel.s:632-660 | a chain that ends visits no cluster twice |
| Fat12.FullTableStays | src/osloader/klLoadKernel.s:632-653 | in a table of 6144 bytes or more, following any entries stays in the table |
| Fat12.ChainEndsIff | src/osloader/klLoadKernel.s:530-663 | as long as following a file's own entries stays in the table, its chain ends if and only if following it never comes back to a cluster |
| Fat12.BootReads | src/osloader/bootsect.s:184-211 | for a file with a chain, the boot sector's reading ends |
| Fat12.SameClustersIff | src/osloader/bootsect.s:210-211 | the boot sector reads the first clusters of a file's chain, and all of them if and only if no entry of the chain lies in 0xFF0 to 0xFF7 |
| Loader.AddressesCluster | src/osloader/klLoadKernel.s:533-536 | what the loader works out for the BIOS is the first sector of the cluster |
| Loader.KtuxLoads | src/osloader/bootsect.s:75-92 | on the boot image's own parameters every cluster from 2 to 257 can be loaded, from sector c+31, by both loaders |
| Loader.ContentsSnoc | src/osloader/klLoadKernel.s:627-630 | a file's data grows by one cluster at a time, up to the whole file |
| Loader.FileLoader.ReadCluster | src/osloader/klLoadKernel.s:533-549 | the buffer holds the cluster's data and nothing else changes |
| Loader.FileLoader.RepMovsd | src/osloader/klLoadKernel.s:610-626 | dwords arrive in order and nothing else changes |
| Loader.FileLoader.NextEntry | src/osloader/klLoadKernel.s:632-653 | the next entry of the table in memory |
| Loader.FileLoader.LoadCluster | src/osloader/klLoadKernel.s:530-630 | the loaded data is extended by the current cluster's |
| Loader.FileLoader.LoadFile | src/osloader/klLoadKernel.s:508-663 | it ends with the destination holding the clusters of the chain in order and nothing else changed but the buffer |
| Elf.KernelLoader.ParseSegment | src/osloader/klLoadKernel.s:758-825 | walking the header by increments reads the fields of the program header |
| Elf.KernelLoader.ParseELFHeader | src/osloader/klLoadKernel.s:676-882 | the result is the kernel's end or the first error, the fields are those of the two program headers |
| ElfFile.FileReadsBack | src/osloader/klLoadKernel.s:676-825 | a file laid out as the gABI has it is read back as the header it was written from |
| ElfFile.VerdictSays | src/osloader/klLoadKernel.s:676-882 | the answer is 5 without the magic number, 6 for no executable, 7 unless there are two segments, 8 if the first has a BSS, 9 unless both are aligned to pages, and else the address behind the second in memory |
| Copying.MovesIntact | src/osloader/klLoadKernel.s:906-942 | moving down or clear of itself, a segment arrives intact |
| Copying.MovesIntactIff | src/osloader/klLoadKernel.s:906-942 | a segment of any contents arrives intact if and only if its destination is not strictly inside it |
| Elf.KernelLoader.MoveSegment | src/osloader/klLoadKernel.s:906-942 | for any source, destination and count the loops are the byte-by-byte upward copy with 32-bit addresses, a count of 0 going once round memory |
| Elf.KernelLoader.ZeroBytes | src/osloader/klLoadKernel.s:946-958 | the counted bytes are zeroed; a count of 0 zeroes all of memory |
| Elf.ImagePlaced | src/osloader/klLoadKernel.s:889-961 | the two moves and the zeroing make the image the program headers describe |
| Elf.PreparedIsImage | src/osloader/klLoadKernel.s:889-961 | with a BSS and a data segment that moves down or clear of itself, what the three steps leave is the image |
| Elf.NothingPrepared | src/osloader/klLoadKernel.s:946-958 | without a BSS all of memory ends up zero, whatever the header says |
| Elf.SpoiledImage | src/osloader/klLoadKernel.s:915-942 | a data segment that moves up into itself spoils the image |
| Elf.PreparedIsImageIff | src/osloader/klLoadKernel.s:889-961 | for segments in order, prepareKernel makes the image of every file if and only if there is a BSS and the data segment moves down or clear of itself |
| Elf.KernelLoader.PrepareKernel | src/osloader/klLoadKernel.s:889-961 | for any header memory becomes what the two moves and the zeroing make of it: with a BSS and segments that can be placed the image, without a BSS zeroes |
| Elf.EndIsAfterBss | src/include/memory.h:103 | virt2Phys of the kernel's end is the first byte after the BSS, and of every image address where the image is |
| BootKernel.PlaceKernel | src/osloader/klLoadKernel.s:175-231 | for a file with its headers in memory the result is the kernel's end or the first error, and a bootable kernel ends up as its process image |
| BootKernel.LoadKernel | src/osloader/klLoadKernel.s:147-241 | from the cluster chain on disk: the result is the verdict on the file's header, and for a bootable kernel memory holds the image of the file's segments |
| BootKernel.KernelInPlace | src/include/memory.h:103 | after that, every byte of the image is where virt2Phys says, and virt2Phys of the reported end is the first byte after it |

## Left out

- DoPrintf: radix 8, 10 and 16 only, arguments as dwords or NUL-free strings; an argument
  of the wrong kind ends the model with `BadArgument`, where the C code would read whatever
  the stack holds (`OutcomeIff` says exactly when).
- DoPrintf: the `L` modifier fetches one dword, as the cast to `long` keeps one; the far
  pointer flag prints nothing of its own, as in the source.
- Kprintf: nothing is said of the screen after `Overread` or `BadArgument`, where the C code
  goes on printing what it finds behind the format or on the stack.
- TaskSwitch: the specification's `None`, which the method excludes by precondition, stands
  for a scan that never ends or that leaves the table, as it may when `numThreads` has gone
  back below the current slot; `TickReturnsIff` says exactly when that is.
- NewThread: a number below MAX_THREADS; the source does not check that, and beyond it writes
  outside the table.
- NewThread: the allocation of struct and stack, the failure of that allocation and the
  thread's name are not modelled; the stack comes as a parameter. The stores to the new struct
  and the store of `numThreads` are one step, as nobody else can reach the struct.
- Handler20: what the C code below the handler writes on the interrupted stack is arbitrary;
  `ContextPreserved` takes it to stay below the frame and inside that stack. The interrupt
  controllers are not modelled.
- MemCpy: copies whole cells, where the source copies the same bytes one at a time.
- PutchHelp: the width is a multiple of 8 (`TabFitsIff`).
- InitConsole: the banner printed on each console but the first and the choice between
  monochrome and colour ports; `clrscr` and `blink` are not modelled.
- ScrollbackTheorem: text of printable characters and newlines on a cleared console outside
  any escape sequence.
- MapPageHelper: the table of the page is present; `create_new_table` indexes the directory
  by page index and is not modelled. TLB invalidation and the interrupt flag are left out.
- BuildTables: the start of free memory is within the first 4MB, as the comment in
  `memory.h` asks; `enable_paging` and the mapping of the loader's own memory are left out.
- BuildFreeList: memory ends below the last page of the address space (`ListingEndsIff`) and
  free memory starts above 1MB; `freeMemory` and `usedMemory` are not modelled.
- AllocPage: no frees; `free_page` does not mirror its index and nothing calls it.
- KMalloc: the heap stays inside the address space and its tables exist; the clearing of
  the block and the debugging output are left out, and so is the return of 0, which needs
  a heap end of 0xFFFFFFFF. A page request that fails maps page 0, as in the source.
- LoadFile: disk reads succeed; retries, progress dots and the mode switches around the
  copy are left out. Clusters are in the range `LogicalRightIff` allows.
- LoadFile: the boot sector's own loading loop is represented by its decoder, its addresses
  and the clusters it reads (`SameClustersIff`).
- PrepareKernel: the image is promised for segments in order, of nonzero size in the file (the
  counts of the moving loops are looked at after the first byte), as `PreparedIsImageIff` says.
- LoadKernel: the file holds its ELF header and two program headers, and the messages of the
  loader are left out.
- `list_splice` without `init`, which leaves the donor outside any ring.
- `page_fault_handler`, segment bases, and everything done by `cli` and `sti` beyond
  delimiting atomic steps.
- Keyboard, shell, system calls, demo threads, interrupt tables, device set-up and the search
  of the root directory are not modelled.
- `src/kernel/list.c` and `src/old`, which are not built.
