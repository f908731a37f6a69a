# A verified model of a small kernel simulator

This project models a kernel simulator written in C and proves what its parts promise.
Four subsystems are covered.

**Paged memory machine.** Byte memory read and written in big-endian words; a list of free
blocks that is split, given back to, sorted in place and coalesced; page tables that live in
that memory; a direct-mapped TLB; a sixteen-instruction processor; a dispatcher that saves and
restores registers; a loader for hexadecimal program files. The main results are that free and
allocated blocks partition memory in every run, that the machine with the TLB computes what the
machine without one computes, that a process can only write its own frames, and that any number
of processes interleaved on one hardware thread compute what each computes alone.

**Clock and timers.** One clock thread and N timer threads share a mutex and two condition
variables. The code between two waits is one atomic step of a transition system. The results
are lockstep, the exact step that can lose a wakeup, progress to the next broadcast, the firing
period, and exactly which changes of frequency keep it.

**Linked list.** Nodes relinked on the heap, with the recursive in-place merge sort.

**Priority run queue.** Two arrays of lanes with one-at-a-time migration behave as one global
priority queue; how far it keeps the order of arrival within a priority is proved for removals
from either end of a lane.

The files follow the source: `LinkedList.dfy` (with `Sorting.dfy`) for `linkedlist.c`;
`PhysicalMemory.dfy`, `FreeBlocks.dfy`, `PageTables.dfy`, `Translation.dfy` for `memory_s.c`;
`Processor.dfy`, `Instructions.dfy`, `Hardware.dfy` for `executor_s.c` and `cpu.c`; `Dispatch.dfy`,
`Unflushed.dfy`, `Hardware.dfy` for `scheduler.c`; `Loader.dfy` for `loader_s.c`; `Clock.dfy`
for `clock.c`; `RunQueue.dfy` for `scheduler_priority_fifo.c` and `runqueues.c`. `Words.dfy` writes the 32-bit widths out as
arithmetic on integers, `Bits.dfy` proves that the masks and shifts of the source are that
arithmetic, and `Division.dfy` and `Options.dfy` are small helpers. Code that updates objects in
place is a class whose methods are proved against functions on values; the theorems are about
those functions. What the smallest of them mean is itself stated without them: instructions,
digits, priorities, limits and masks by literal numbers, congruences and machine operators.

`dafny verify dfyconfig.toml` checks the whole project.

## Readings of the source

Where the code as written cannot do what it is for, the model follows the evident intent and
says so; several of the differences are themselves stated as lemmas.

- The size of a clipped block is the larger end minus the smaller one plus one. The subtraction
  at src/memory_s.c:44 is the other way round; `SpaceTestAsWritten` says exactly when that
  agrees.
- Allocation is `__pm_memory_allocation_procedure` (src/memory_s.c:186-213).
  `pm_memory_allocation_request` (151-184) pops the last block and drops what is left of it;
  `RequestAsWrittenConservesExactly` says exactly when that loses nothing.
- Status results are success or failure, and `err` ends the run; the callers' tests at
  src/memory_s.c:64, 90, 111 and 116 are read accordingly.
- A page is in a table if its number is below the number of entries. The bound at
  src/memory_s.c:275 also lets the next page through; `BoundAsWritten` says it differs there
  and nowhere else.
- Memory is an array of 2^24 bytes (the allocation call is missing at src/memory_s.c:315 and
  following).
- Loading a process flushes the TLB in `Dispatch`. The dispatcher in the source does not;
  `Unflushed` models that one: an access is right if and only if its slot does not answer or
  was filled by the process itself, and runs without a wrong access are transparent.
- A load that refuses a line returns before its flush (src/loader_s.c:118-121), and the caller
  does not look (68). `RefusedLoadSpoilsNext` says what that does to the next program, and
  `LoadThenFetch` exactly when a program is stored right in spite of what the TLB still holds.
- The loader sorts its list of files and then pops from it (src/loader_s.c:54 and 59), with the
  `prev` fields as they were before sorting; `SortAndPop` says exactly when that is right.
- Saved registers are kept in `cpu_snapshot` (src/loader_s.c:105 and 137 pass another address).
- The run queue starts from `runqueue_init`; `rq_prio_fifo_init` leaves `active` unset.
- Removal from the run queue takes the last process of a lane, as `linkedlist_pop` does.
  `linkedlist_remove_first` is declared but not defined; both ends are modelled. From the rear,
  runs in which nobody is inserted behind somebody are first come, first served
  (`RearIsFirstComeFirstServed`); one removal takes the first of its lane if and only if it is
  alone there (`RearTakesFirstExactly`); filling and then draining keeps the order of arrival if
  and only if no two processes share a lane (`RearIsFirstComeFirstServedExactly`). In longer
  runs the migration can turn a lane around, and two who wait together may come out in order
  after all (`TurnedAroundTwice`).
- The second branch of the coalescing pass (src/memory_s.c:239-244) is implied by the first and
  never taken. The unlinked node is not released twice.
- Restarting a timer with a new frequency counts down from the old one
  (src/clock.c:84); `RestartKeepsRangeExactly` says when that is in range.
- A change without restart takes the old frequency minus the countdown for the ticks since the
  last fire (src/clock.c:86-87). After an earlier change in the same period that need not be so;
  `ChangeShiftsFire` says exactly when the next fire is on time, `SecondChangeIsLate` shows one
  that is not.

## Model

| member | source | states |
|---|---|---|
| Sorting.SortSorts | src/linkedlist.c:14-44 | for every comparator that is a total preorder the result of the sort is sorted |
| Sorting.SortPermutes | src/linkedlist.c:14-44 | for any comparator at all the result is a permutation |
| Sorting.SortStable | src/linkedlist.c:35-42 | the sort is stable: the elements that compare the same as any given one keep their order |
| Sorting.StableSortIsUnique | src/linkedlist.c:7-44 | sorted and stable determines the result, so the other three describe it completely |
| Sorting.SortFixesExactlySorted | src/linkedlist.c:7-44 | sorting changes nothing if and only if the list was sorted |
| LinkedLists.FrontBackSplit | src/linkedlist.c:46-67 | cuts a chain in place into a front half of n - n/2 nodes and a back half of n/2, rounded down |
| LinkedLists.SortedMerge | src/linkedlist.c:27-44 | relinks two disjoint chains into one acyclic chain of exactly their nodes, the stable merge |
| LinkedLists.MergeSortFrom | src/linkedlist.c:14-25 | the recursive relinking terminates and the chain afterwards is the stable sort of the nodes with their data |
| LinkedLists.SortNodes | src/linkedlist.c:7-12 | the sorted chain, and the walk to its end finds the new last node |
| LinkedLists.List.constructor | src/linkedlist.c:123-127 | an empty list, linked both ways |
| LinkedLists.List.Push | src/linkedlist.c:106-121 | appends one element in a fresh node; keeps `next` and `prev` mutual inverses and `first`, `last`, `length` right |
| LinkedLists.List.Pop | src/linkedlist.c:72-89 | takes the last element, or reports none; the list is right afterwards if and only if the `prev` of the last node was, and stays linked both ways if it was |
| LinkedLists.List.Search | src/linkedlist.c:176-187 | finds the first match from the front and the node before it |
| LinkedLists.List.Unlink | src/linkedlist.c:157-174 | takes out exactly the given node, the others keep their order; keeps both directions linked |
| LinkedLists.List.PopFirstMatch | src/linkedlist.c:129-137 | removes exactly the first match and returns it, or changes nothing |
| LinkedLists.List.PeekFirstMatch | src/linkedlist.c:139-147 | returns the first match without removing it |
| LinkedLists.List.MergeSort | src/linkedlist.c:7-12 | sorts in place with the same nodes, `last` is right; the `prev` fields are right afterwards if and only if the list was sorted before |
| LinkedLists.List.SortAndPop | src/loader_s.c:54-59 | a pop after the sort returns the greatest element, and leaves a right list if and only if the two that are last after sorting stood next to each other before |
| FreeBlocks.AllocateConserves | src/memory_s.c:186-213 | splitting a block loses no address and hands none out twice; the range lies inside the requested limits |
| FreeBlocks.AllocateFailsExactly | src/memory_s.c:33-45 | a request is refused if and only if no block has room for it inside the limits |
| FreeBlocks.AllocateWellPlaced | src/memory_s.c:186-213 | frame requests and word requests keep every block on its boundaries and hand out aligned addresses |
| FreeBlocks.SpaceTestAsWritten | src/memory_s.c:44 | for every 32-bit size, the subtraction as written, with wrap-around, agrees with the size of the clipped block if and only if the stated condition on room and size holds |
| FreeBlocks.RequestAsWrittenConservesExactly | src/memory_s.c:151-184 | the other allocation routine, with the space test as written, conserves addresses if and only if the last block is, inside the limits, exactly the range asked for |
| FreeBlocks.CoalesceKeepsExactly | src/memory_s.c:227-256 | coalescing a sorted list keeps exactly the free addresses if and only if no block reaches over a later gap |
| FreeBlocks.OverhangLoses | src/memory_s.c:236-238 | otherwise an address is lost, and the lemma returns it |
| FreeBlocks.NestedBlocksLoseAddresses | src/memory_s.c:236-238 | a concrete pair of nested blocks that loses addresses |
| FreeBlocks.CoalesceStartsAt | src/memory_s.c:227-256 | the blocks afterwards are strictly ordered and neither overlap nor touch |
| FreeBlocks.OptimizeConserves | src/memory_s.c:215-256 | for disjoint blocks, sort and coalesce keep every free address exactly as often as before, and the boundaries |
| FreeBlocks.AllocatesFirstAndLowest | src/memory_s.c:186-213 | what is handed out is the lowest range with room inside the limits, in the first block that has one; the other blocks keep their order; refused iff none has |
| PageTables.FramesInOrder | src/memory_s.c:86-92 | the frames stand in the order in which they were handed out |
| PageTables.FrameRefusedExactly | src/memory_s.c:56-66 | a frame is refused iff no free block has 256 addresses between 0x400000 and 0xFFFFFF |
| PageTables.TableRefusedExactly | src/memory_s.c:104-114 | the place of a table is refused iff no free block has room for it between 0 and 0x3FFFFF |
| PageTables.FreeTableRefusedExactly | src/memory_s.c:72-149 | for any memory, freeing a table is refused iff the first address of the table or of a frame that it lists is free by then; otherwise all are given back |
| PageTables.FramesConserve | src/memory_s.c:86-102 | the frames of a bulk allocation are taken out of the free addresses, each once |
| PageTables.FramesAreGood | src/memory_s.c:56-70 | every frame is a multiple of 256 and lies in the user half |
| PageTables.WriteTableAt | src/memory_s.c:120-125 | the table stands in memory afterwards and no other word was written |
| PageTables.NewTableIsGood | src/memory_s.c:104-128 | a new table is word aligned in the kernel half, has the frames asked for, and its block and frames come out of the free addresses |
| PageTables.FreeTableGivesBack | src/memory_s.c:130-149 | freeing a table that stands in memory gives back its block and each of its frames |
| PageTables.MallocSound | src/memory_s.c:104-128 | allocating a table keeps free and live blocks a partition of memory and every live table intact |
| PageTables.FreeSound | src/memory_s.c:130-149 | so does freeing one |
| PageTables.OptimizeSound | src/memory_s.c:227-256 | so does a coalescing pass, which also separates the free blocks |
| PageTables.UserSound | src/executor_s.c:82-85 | so do stores through a live table |
| PageTables.InitialSound | src/memory_s.c:314-322 | the single initial block is a partition |
| PageTables.EveryRunIsSound | src/memory_s.c:186-256 | in every state of every run, free and live blocks partition [0, 0xFFFFFF] and every live table stands unharmed in memory |
| PageTables.MallocFreeRoundTrip | src/memory_s.c:331-343 | malloc, stores, free restores the free addresses exactly, and a second free of the table is refused |
| PageTables.EveryWordIsMapped | src/memory_s.c:331-335 | the frame count is the least that maps every word |
| PhysicalMemories.PhysicalMemory.constructor | src/memory_s.c:314-322 | 2^24 bytes and one free block |
| PhysicalMemories.PhysicalMemory.ReadWord | src/memory_s.c:8-18 | the byte loop reads the big-endian word that holds the address |
| PhysicalMemories.PhysicalMemory.WriteWord | src/memory_s.c:20-31 | the byte loop writes that word and no other |
| PhysicalMemories.PhysicalMemory.AllocationProcedure | src/memory_s.c:186-213 | the list code is the allocation function, failure included |
| PhysicalMemories.PhysicalMemory.FrameMalloc | src/memory_s.c:56-70 | a frame request in the user half |
| PhysicalMemories.PhysicalMemory.FrameFree | src/memory_s.c:72-84 | gives the masked frame back, and refuses if and only if its first address is free already |
| PhysicalMemories.PhysicalMemory.FrameMallocBulk | src/memory_s.c:86-102 | fills the array with the frames of the allocation function |
| PhysicalMemories.PhysicalMemory.WritePageTable | src/memory_s.c:120-125 | the writing loop is the table function |
| PhysicalMemories.PhysicalMemory.PageTableMalloc | src/memory_s.c:104-128 | the whole allocation is the table allocation function, on memory and list |
| PhysicalMemories.PhysicalMemory.FreeEntries | src/memory_s.c:142-147 | the loop over the entries is the frame-freeing function |
| PhysicalMemories.PhysicalMemory.PageTableFree | src/memory_s.c:130-149 | the whole release is the table freeing function |
| PhysicalMemories.PhysicalMemory.OptimizeFreeBlockList | src/memory_s.c:227-256 | the pass over the linked nodes computes sort and coalesce, with `last` and `length` right |
| Translation.ResolveIsWalk | src/memory_s.c:258-306 | with a coherent TLB an address resolves as by the page-table walk, failures included, and the TLB stays coherent through evictions |
| Translation.SlotIsRemainder | src/memory_s.c:286-287 | the slot of an address is its page number modulo the size of the TLB |
| Translation.ResolvedAddress | src/memory_s.c:268-280 | masking is lossless: the address is the listed frame plus the page offset, inside the frame |
| Translation.WalkOfTable | src/memory_s.c:272-282 | the walk gives exactly the frames that the table lists |
| Translation.BoundAsWritten | src/memory_s.c:275 | the bound as written differs for the page right behind the table and for no other |
| Translation.FlushedIsCoherent | src/memory_s.c:308-316 | a flushed TLB is coherent with every table |
| Translation.FramesDiffer | src/memory_s.c:104-128 | two live tables share no frame |
| Translation.AccessRightExactly | src/scheduler.c:152-161 | with a TLB that several tables have filled, an access gets what the walk of the process's own table gives, failures included, if and only if the slot does not answer or that process filled it |
| Translation.AccessKeepsOwners | src/memory_s.c:258-270 | right or wrong, the address lies in a frame of the table that filled the slot, and every slot keeps its owner |
| Translation.StaleSlotIsWrong | src/scheduler.c:152-161 | a slot that another process left behind and that answers is always wrong, also for a page that the process lacks |
| Processor.PlainStepIsolated | src/executor_s.c:82-85 | a step writes only words of frames of the process's own table, and leaves the table intact |
| Processor.StepRefines | src/executor_s.c:35-101 | one instruction with the TLB is one instruction by walk |
| Processor.RunRefines | src/executor_s.c:35-101 | any run from a coherent TLB has the registers, memory and end of the run that walks the table for every address |
| Processor.RunIsolated | src/executor_s.c:35-101 | no run changes a word outside the frames of its own table |
| Processor.RunIsUserStep | src/executor_s.c:35-101 | so a run keeps the allocator's invariant |
| Processor.CompareAndBranch | src/executor_s.c:173-175 | of the three conditions on the compared difference exactly one holds, equality iff the operands are equal, and the order is the signed one iff the difference fits 32 bits |
| Processor.CompareThenBranch | src/executor_s.c:173-221 | two steps of the machine, CMP and a branch: the branch is taken if and only if the two registers are in the order asked for, the opposite one where the difference does not fit 32 bits; memory and registers stay |
| Processor.TruncatedQuotientIs | src/executor_s.c:153-155 | division leaves a remainder smaller than the divisor with the sign of the dividend |
| Division.ProductIsTimes | src/executor_s.c:149-151 | the step-by-step product is the product |
| Division.LeftOverIsRemainder | src/memory_s.c:287-301 | the step-by-step remainder that gives the slot of a page is the remainder |
| Instructions.EveryWordDecodes | src/executor_s.c:42-101 | every word is made of an opcode, a target register, two source registers and a rest, or of an opcode, a register and an address |
| Instructions.Arithmetic | src/executor_s.c:141-151 | ADD, SUB and MUL leave in the target register a value congruent to the exact result modulo 2^32; the other registers, CC and memory stay and PC grows by 4 |
| Instructions.Dividing | src/executor_s.c:153-155 | DIV traps if and only if the divisor is zero or the quotient is out of range, and otherwise leaves the quotient rounded towards zero |
| Instructions.Logical | src/executor_s.c:157-167 | AND, OR and XOR leave what the machine operators give for the two words |
| Instructions.Moving | src/executor_s.c:169-171 | MOV copies the first source register |
| Instructions.Comparing | src/executor_s.c:173-175 | CMP leaves in CC a value congruent to the difference and changes no register |
| Instructions.Branching | src/executor_s.c:177-226 | B and EXIT go to the address, BEQ, BGT and BLT do so if CC is zero, above or below it; else PC grows by 4, and nothing else changes |
| Instructions.FetchOnTable | src/executor_s.c:35-40 | the fetched word stands in the frame that the table lists for PC, at its offset; outside the table the step fails |
| Instructions.Loading | src/executor_s.c:76-80 | LD fills the register of nibble 6 with the signed word that the table maps, and changes no other; outside the table it fails |
| Instructions.Storing | src/executor_s.c:82-85 | ST writes the register of nibble 6 to the word that the table maps, and to no other; outside the table it fails |
| Instructions.StoreThenLoad | src/executor_s.c:76-85 | a register stored and loaded from the same address comes back in the register that LD names |
| Hardware.Mmu.GetMatch | src/memory_s.c:284-297 | the slot lookup |
| Hardware.Mmu.AddEntry | src/memory_s.c:299-306 | the slot update |
| Hardware.Mmu.Flush | src/memory_s.c:308-316 | every slot is inactive afterwards |
| Hardware.Mmu.ResolveFrame | src/memory_s.c:272-282 | the walk through memory |
| Hardware.Mmu.ResolveAddress | src/memory_s.c:258-270 | address and TLB are those of the resolution function, failure included |
| Hardware.Mmu.Malloc | src/memory_s.c:331-335 | allocates a table for the rounded-up number of frames |
| Hardware.Mmu.Free | src/memory_s.c:337-339 | releases a table |
| Hardware.Thread.constructor | src/cpu.c:39-72 | all registers zero and twenty inactive TLB slots |
| Hardware.Thread.ExecuteCurrent | src/executor_s.c:35-40 | registers, TLB and memory afterwards are those of the step function |
| Hardware.Thread.ExecuteWord | src/executor_s.c:42-226 | the decoded instruction on the objects is the instruction function |
| Hardware.Thread.LoadRegister | src/executor_s.c:76-80 | LD |
| Hardware.Thread.StoreRegister | src/executor_s.c:82-85 | ST |
| Hardware.Thread.DispLoadAsWritten | src/scheduler.c:152-161 | the thread afterwards is the machine loaded from the control block, with the TLB as it was |
| Hardware.Thread.DispLoad | src/scheduler.c:152-161 | the same, with the flush added |
| Hardware.Thread.DispUnload | src/scheduler.c:163-171 | the control block holds the saved registers, everything else of it unchanged |
| Hardware.Thread.DispDispatch | src/scheduler.c:129-134 | save, then load |
| Dispatch.RestoreOfSave | src/scheduler.c:152-171 | saving into unsigned words and restoring gives every register back |
| Dispatch.SnapshotOf | src/scheduler.c:163-169 | each register is saved in its own place, modulo 2^32 where it is signed |
| Dispatch.FreshBlockStarts | src/scheduler.c:152-161 | a fresh control block starts its process at its program counter with everything else zero |
| Dispatch.StepIsLocal | src/executor_s.c:35-101 | a step depends only on the process's registers and frames |
| Dispatch.OthersSeeNothing | src/executor_s.c:82-85 | what one process stores another does not see |
| Dispatch.EveryScheduleIsTransparent | src/scheduler.c:129-171 | the invariant of every schedule: each process is where its run alone is |
| Dispatch.ContextSwitchTransparency | src/scheduler.c:129-171 | for any number of processes and any schedule the interleaved run faults iff some process faults alone within its turns, and otherwise each ends with the registers and frames of its own uninterrupted run |
| Dispatch.LoadedIsReady | src/scheduler.c:152-161 | control blocks of live tables make a system that the theorem applies to |
| Unflushed.StepRightExactly | src/scheduler.c:152-161 | without flushes, both accesses of an instruction are right if and only if neither meets a slot that another process filled |
| Unflushed.EveryUnflushedRunIsSound | src/scheduler.c:129-171 | without flushes, in every state of every schedule no page table and no free block is harmed and each active slot gives its owner's frame |
| Unflushed.UnflushedRunRightExactly | src/scheduler.c:129-171 | all accesses of a run are right if and only if none meets a slot that another process filled |
| Unflushed.MineRunIsFlushed | src/scheduler.c:129-171 | such a run is, but for the TLB, the run of the dispatcher that flushes, faults included |
| Unflushed.UnflushedTransparency | src/scheduler.c:129-171 | so the dispatcher as written is transparent for it |
| Unflushed.SamePageGoesWrong | src/scheduler.c:129-134 | a process loaded right after another one, with its program counter in the same page, always fetches wrongly if the last instruction neither loads nor stores |
| Loader.HexStringToInt32 | src/loader_s.c:142-158 | the loop returns the number that the first eight digits spell, or fails iff they are not eight digits |
| Loader.DigitExactly | src/loader_s.c:160-172 | the digit k is the k-th character of 0 to f or of 0 to F, and nothing else is a digit |
| Loader.ParsesExactly | src/loader_s.c:142-172 | a line parses to a word if and only if its first eight characters spell it, letters in whatever case |
| Loader.NibbleOfLine | src/executor_s.c:6-10 | decoding nibble 7-k of a parsed word gives digit k of the line |
| Loader.ParseOfHexLine | src/loader_s.c:142-172 | writing a word in hexadecimal and parsing it gives the word back |
| Loader.LoadFile | src/loader_s.c:112-128 | the loop is the load function on memory and TLB; the flush is reached if and only if no line is refused, and otherwise the stored lines and the filled slots stay |
| Loader.WordsApart | src/loader_s.c:112-124 | different words of a program are stored at different places |
| Loader.LoadThenFetch | src/loader_s.c:94-124 | allocate, load through a TLB that other tables have filled: every word is stored where the table maps it if and only if no slot answers when it is first asked; then a fetch through any TLB that is coherent with the table, of any size, address 4*i gives the word of line i for every line, across frames, and the allocator stays sound |
| Loader.EveryLoadIsSound | src/loader_s.c:58-128 | in every sequence of loads, refused ones included, the allocator stays sound and each slot gives its owner's frame |
| Loader.RefusedLoadSpoilsNext | src/loader_s.c:118-121 | a load refused after a good line leaves a slot that answers, so the next program is stored wrongly |
| Loader.NullProcessStays | src/executor_s.c:35-74 | a process whose first word is EXIT to 0 is a fixed point for any number of steps |
| Loader.LoadNullProcess | src/loader_s.c:131-140 | table, word and flush are those of the load function on memory, free blocks and TLB |
| Loader.LoadedNullProcessStays | src/loader_s.c:131-140 | the null process, from its loading on, stays at 0 for any number of steps, and the allocator stays sound |
| Logic.LogicIsOperator | src/executor_s.c:157-167 | AND, OR and XOR bit by bit are the operators on words |
| MachineBits.NibbleIsDigit | src/executor_s.c:6-10 | the shift and mask of a nibble are its digit in base sixteen |
| MachineBits.WordMaskIsArithmetic | src/memory_s.c:9-10 | the word mask drops the upper byte and the lower two bits |
| MachineBits.PageMaskIsArithmetic | src/memory_s.c:273-274 | page number and offset are quotient and remainder by 256 |
| MachineBits.FrameMaskIsArithmetic | src/memory_s.c:73 | the frame mask drops the upper byte and the page offset |
| MachineBits.GlueIsArithmetic | src/memory_s.c:268 | the effective address is frame base plus offset |
| MachineBits.AddressFieldIsArithmetic | src/executor_s.c:6-10 | the mask of nibbles 0 to 5 is the address field of the model, the lower twenty-four bits |
| MachineBits.ReadLoopIsBigEndian | src/memory_s.c:8-18 | four shift-and-or steps read the big-endian word |
| MachineBits.ReadStepIsArithmetic | src/memory_s.c:13-15 | shifting a byte in multiplies by 256, drops the top and adds |
| ClockBarrier.TickKeepsSchedule | src/clock.c:33-40 | a tick keeps count, fires and ticks in step |
| ClockBarrier.ScheduleIsPeriodic | src/clock.c:33-40 | after n ticks a timer of frequency f has fired floor(n/f) times and its countdown is f - n mod f; frequencies below one fire at every tick |
| ClockBarrier.NextFire | src/clock.c:33-40 | a countdown of c fires in exactly c ticks |
| ClockBarrier.ChangeShiftsFire | src/clock.c:83-91 | after a change without restart the countdown is in range, and the next fire comes max(new, since + 1) ticks after the last one if and only if the countdown said how long ago that was, or both readings leave one tick at most |
| ClockBarrier.TickKeepsBeat | src/clock.c:33-40 | ticks keep the countdown in step with the time since the last fire, and firing restores it |
| ClockBarrier.ChangeKeepsBeatExactly | src/clock.c:83-91 | a change keeps it if and only if it goes above the ticks since the last fire, or restarts to exactly that much above the old frequency |
| ClockBarrier.CalmChangeComesOnTime | src/clock.c:83-91 | in every run, a change after no change or only calm ones since the last fire makes the next fire come max(new, since + 1) ticks after it |
| ClockBarrier.SecondChangeIsLate | src/clock.c:83-91 | from 10 to 2 and back to 10 after seven ticks: the fire comes after sixteen ticks, not ten |
| ClockBarrier.RangeKeptExactly | src/clock.c:83-91 | a step leaves all countdowns between 1 and the frequency if and only if it is no change to a frequency below one and no restart of a registered timer from a larger frequency |
| ClockBarrier.RangeInRunsExactly | src/clock.c:83-91 | they are in range in every state of a run if and only if no change in it is of those kinds |
| ClockBarrier.RestartLeavesRange | src/clock.c:84 | a restart from 10 to 2 leaves the countdown at 10 |
| ClockBarrier.RestartKeepsRangeExactly | src/clock.c:84 | after a restart the countdown is in range iff the old frequency is not above the new one |
| ClockBarrier.FirstChangeComesOnTime | src/clock.c:83-91 | in every run, the first change of frequency after a fire or the start makes the next fire come max(new, since + 1) ticks after that |
| ClockBarrier.FiresPeriodicallyFromStart | src/clock.c:24-40 | in every run, from its start until its frequency is changed a timer has fired floor(ticks/f) times |
| ClockBarrier.BroadcastOnlyWakes | src/clock.c:15-19 | a broadcast wakes the parked timers and changes nothing else of any timer; without one none changes |
| ClockBarrier.OthersAreLeftAlone | src/clock.c:22-91 | an event of one timer changes no other; stops and changes leave the counters and the clock alone |
| ClockBarrier.StartTicks | src/clock.c:24-46 | a started timer registers and makes its first tick from a full countdown |
| ClockBarrier.RunningTicks | src/clock.c:32-46 | a timer woken and not stopped ticks once, fires iff its countdown ends, reports, signals and parks |
| ClockBarrier.StopIsTheOnlyStop | src/clock.c:79-81 | a timer is stopped by a stop and by nothing else, and no event takes it back |
| ClockBarrier.StoppedNeverTicks | src/clock.c:32-49 | a stopped timer never ticks or fires again, whatever the event, and does not come back once it has left |
| ClockBarrier.StoppedForGood | src/clock.c:32-49 | the same between any two moments of every run |
| ClockBarrier.StoppedLeaves | src/clock.c:48-49 | woken, it leaves: the number of timers goes down by one and nothing is signalled |
| ClockBarrier.StoppedBeforeStart | src/clock.c:24-49 | stopped before its start, it leaves without a tick |
| ClockBarrier.NextInv | src/clock.c:8-50 | every atomic step keeps the counters, the lockstep and the schedules |
| ClockBarrier.EveryStateInv | src/clock.c:8-50 | so does every run from the start |
| ClockBarrier.BroadcastExactlyWhenAllParked | src/clock.c:15-19 | the clock broadcasts iff a timer is registered and all registered ones are parked; consumed never exceeds total |
| ClockBarrier.OneTickPerCycle | src/clock.c:30-49 | between any two moments a registered timer has ticked once for every broadcast, apart from the current cycle |
| ClockBarrier.NeverTwoTicksApart | src/clock.c:30-49 | timers that joined in one cycle differ by at most one tick |
| ClockBarrier.FiresOncePerPeriod | src/clock.c:32-40 | in every run an unchanged timer has fired once per full period of its ticks |
| ClockBarrier.AlertLostExactly | src/clock.c:44-49 | a step loses the wakeup iff it is the last unparked timer leaving while the clock is blocked and somebody is parked |
| ClockBarrier.AlertInRunsExactly | src/clock.c:44-49 | in every run, all states have their wakeup if and only if no step is of that kind |
| ClockBarrier.NoLostWakeup | src/clock.c:15-46 | without stopped timers, in every reachable state with a registered timer some thread can go on |
| ClockBarrier.BroadcastComes | src/clock.c:15-46 | a run of the registered threads longer than the work left contains a broadcast |
| ClockBarrier.SpuriousTimerWakeup | src/clock.c:46 | a timer that wakes without a broadcast always spoils the counters |
| ClockBarrier.StoppingCanDeadlock | src/clock.c:48-49 | a concrete run in which stopping one of two timers blocks everybody |
| ClockBarrier.Clock.Region | src/clock.c:13-20 | the loops between two waits are the clock step, and broadcast iff the test lets them; the step wakes exactly the parked timers then and changes nothing else of them |
| ClockBarrier.TimerObject.Loop | src/clock.c:32-48 | the loop head is the timer step on the fields |
| ClockBarrier.TimerObject.Begin | src/clock.c:24-48 | registering and the first iteration |
| ClockBarrier.TimerObject.Stop | src/clock.c:79-81 | sets the status that the loop looks at |
| ClockBarrier.TimerObject.ChangeFreq | src/clock.c:83-91 | the change function on the fields |
| RunQueues.InProper | src/scheduler_priority_fifo.c:8-18 | an insertion adds that process to its lane and keeps the counter |
| RunQueues.UpdateProper | src/scheduler_priority_fifo.c:88-110 | swap and migration lose nobody and keep both counters; `active` is left empty only if nobody waits |
| RunQueues.UpdateBringsLeast | src/scheduler_priority_fifo.c:88-110 | after it the first lane of `active` is the least over both arrays |
| RunQueues.OutIsGlobalMinimum | src/scheduler_priority_fifo.c:45-57 | a removal returns a process of minimal clamped priority over both arrays and removes only it; none iff nobody waits |
| RunQueues.DrainSorts | src/scheduler_priority_fifo.c:45-57 | draining gives an ascending permutation of what was inserted |
| RunQueues.OutHasLeastPriority | src/scheduler_priority_fifo.c:8-57 | in terms of the priorities themselves: nobody in either array has a smaller one than the process removed, those from 19 on counting as one |
| RunQueues.DrainHasPrioritiesInOrder | src/scheduler_priority_fifo.c:8-57 | so does everybody come out when the queue is drained |
| RunQueues.FrontIsFirstComeFirstServed | headers/linkedlist_s.h:26 | with removals from the front every sequence of calls returns what a stable priority queue returns |
| RunQueues.RearIsFirstComeFirstServed | src/scheduler_priority_fifo.c:45-57 | with removals from the rear, every sequence of calls in which nobody is inserted behind somebody returns what a stable priority queue returns |
| RunQueues.RearTakesLast | src/scheduler_priority_fifo.c:45-57 | in any state a removal takes the last of the first lane over both arrays, whatever the migration does |
| RunQueues.RearTakesFirstExactly | src/scheduler_priority_fifo.c:45-57 | it takes the first of that lane if and only if it is alone there |
| RunQueues.NewestIsNext | src/scheduler_priority_fifo.c:8-57 | a process inserted where nobody of smaller priority waits is the next one out |
| RunQueues.TurnedAroundTwice | src/scheduler_priority_fifo.c:88-110 | two who wait together can still come out in order, the migration having turned them around |
| RunQueues.RemovesWhatWasShownExactly | src/scheduler_priority_fifo.c:33-57 | the next removal after a look takes the process shown if and only if it is alone in its lane |
| RunQueues.RearIsFirstComeFirstServedExactly | src/scheduler_priority_fifo.c:52 | with removals from the rear, fill and drain give that order iff no two processes share a lane |
| RunQueues.TwoOfOnePriority | src/scheduler_priority_fifo.c:52 | two processes of one priority come out in the wrong order |
| RunQueues.PrioArrayObject.constructor | src/runqueues.c:3-8 | twenty empty lanes |
| RunQueues.RunQueue.constructor | src/runqueues.c:10-16 | two empty arrays |
| RunQueues.PrioArrayObject.FirstNotEmpty | src/scheduler_priority_fifo.c:112-119 | the scan finds the first lane with somebody in it, or reports none |
| RunQueues.RunQueue.Insert | src/scheduler_priority_fifo.c:8-18 | the insertion function on the arrays |
| RunQueues.RunQueue.UpdateSched | src/scheduler_priority_fifo.c:88-110 | the update function on the arrays, swapping references |
| RunQueues.RunQueue.Remove | src/scheduler_priority_fifo.c:45-57 | the removal function on the arrays |
| RunQueues.RunQueue.Look | src/scheduler_priority_fifo.c:33-43 | the look function on the arrays |

## Left out

- `sched_execute`, `sched_dispatcher`, the choice of the next process: the state machine in the source returns the null process whenever the null status is set and marks every unloaded process finished, so the intended life cycle is not settled by the code.
- `scheduler_simple_fifo.c`, `scheduler_data_interface.c`, `processgenerator.c`, `main.c`: wrappers, casts and wiring with nothing hard to prove.
- `linkedlist_peek`, `linkedlist_length`, `linkedlist_not_empty`, `node_iterator`: they would only add easy members.
- `nr_running` of the priority queue: one line of the source does not increment it and another decrements it.
- `execute_all`: the loop over several hardware threads; the interleaving theorem is for one hardware thread.
- Free blocks are values held by list nodes, and the lanes of the run queue are sequences held by an array: aliasing between list data is not modelled; the linked list itself is.
- `malloc` failure, `free`, pointer-to-integer casts, `printf`, file and directory reading, the header lines of program files: I/O and run-time plumbing. A line reaches the parser without its terminator.
- Registers and condition codes use the wrapping subtraction, addition and multiplication of 32-bit machines, where C leaves signed overflow undefined; a division by zero, or of the least integer by -1, ends the run as a trap.
- Nibble ranges of eight digits: the shift is undefined in C and the source does not use it. `MachineBits.NibbleIsDigit` is about single nibbles; the address field is nibbles 0 to 5.
- Priorities are natural numbers; a negative one would index outside the array in the source.
- Page-table sizes are unbounded integers in the release of a table; tables that stand in memory are small enough for 32 bits.
- `clk_change_timer_tickFreq` is one atomic step, although the source holds no mutex there: a change in the middle of an iteration of the timer is not modelled.
- Waiting, signalling and mutual exclusion are modelled by phases; the assignment of the countdown before a timer takes the mutex is part of its first step. Spurious wakeups are modelled for the clock and shown to be harmful for timers.
