# Noctis, verified

A Dafny model of the parts of the Noctis kernel and its boot loader that carry hard
invariants, with proofs of what they promise. `dafny verify dfyconfig.toml` checks the
whole project.

## What is modelled

**The WebAssembly interpreter** (`WasmCode`, `WasmMachine`, `WasmRerun`, `WasmRuntime`,
`WasmStructured`, `WasmSafety`, `WasmInterpreter`, `WasmPrograms`). `WasmMachine.Step` is one turn of the interpreter's
loop over flat code, frames, labels and one shared operand stack, with every panic as an
outcome; `WasmInterpreter.Runtime` is the interpreter object. A skipped `If` leaves its label
behind, so a later `End` jumps back and runs code again. `WasmRerun.Exec` says this as a
recursion on block structure, and the machine is proved to follow it for every store of
every instruction sequence, nested or not, valid or not. From it come termination over
acyclic call graphs and independence of a call from the calls before it.
`WasmStructured.Eval` is the structured meaning of the WebAssembly Core Specification 1.0
(sections 4.4.5 to 4.4.7), with its own arithmetic on mathematical integers. The machine does not have that meaning on every valid program;
`WasmStructured.Check` is a static check under which it has it, for all runs, with
recursion and at any operand height. It covers programs whose operand stack is at the
frame base at every `If`, programs whose blocks and bodies all end in `Return`, and
mixtures. `WasmPrograms.TwiceAgreesExactlyWhen` and
`WasmStructured.SkippedBlockAgreesExactlyWhen` say exactly when the two meanings agree
without the check. `WasmSafety` follows checked functions step by step, also through calls
that never return. Arithmetic panics on `i32` overflow, as in the debug builds that are
copied to the boot image.

**Page tables** (`PageEntry`, `MemLayout`, `PageTree`, `PageMap`, `PageHuge`, `PageTable`,
`PageRoom`, `KernelSpace`, `KernelCopy`). Tables are words in memory, reached by physical address.
`PageTree.Walk` is the hardware's four-level walk (section 4.5 of the Intel 64 Software
Developer's Manual, volume 3A), with the processor's own address field, bits 12 to 51, and
with permissions combined over all levels. That tables
form a tree is stated by a labelling of every table with the level and the indices it
belongs to; the operations on the tables take it as a ghost argument. New tables come
from the bump allocator of `Allocator`.

**Allocator and spin lock** (`Bits`, `Allocator`, `SpinLock`). Bitwise operations are
defined digit by digit on natural numbers and proved equal to their arithmetic forms for
all widths. Threads are interleaved at the lock's swap and store and at the read and the
write of `next`.

**Tasks and interrupts** (`X86`, `Interrupt`, `ContextSwitch`, `TaskRuns`, `Scheduler`,
`TaskSystem`). The assembly routines are instruction lists run by a small processor model.
`TaskSystem` joins scheduler, context switches and page tables.

**The loader** (`EarlyPaging`, `Loader`): the early page table, on the same page table
model, as the copy of the firmware's root table that it is, and the image's extent and
segments in memory.

## Where the code falls short

The model does what the code does. These properties fail of it. For each there is a lemma
at an input where it fails, and one that says exactly when it holds:

- The code behind a skipped `If` runs twice (`ZeroPlusOneIsTwo`;
  `SkippedBlockAgreesExactlyWhen`, `TwiceAgreesExactlyWhen`), so that skipped blocks one
  behind the other take exponentially many turns (`ExponentiallyManyTurns`; no more than
  `CallTurnsBound`).
- The upper lines of a diamond of even size are not of its width (`SizeTwoIsThreeWide`;
  `DiamondLine`).
- A switch deadlocks when the current task is the only runnable one (`IdleAloneHangs`;
  `HangsExactlyWhen`).
- A new task's stack pointer does not lie in the stack allocated for it, because
  `stack_top` counts words and `KERNEL_STACK_SIZE` bytes (`FirstWordInStackExactlyWhen`,
  for every stack); `UsedAreasOkExactlyWhen` says what then has to be free for tasks to be
  safe.
- A copied page table does not follow mappings under top-level entries that were absent
  (`TwinsPart`; `AlikeExactlyWhen`).
- Seven of the sixteen fields of `InterruptRegisters` (kernel/src/idt.rs:23-40) read another
  register, because the pushes (kernel/src/idt.rs:122-137) are in another order
  (`RbxReadsRcx`; `FieldIsRightExactlyWhen`).
- An entry takes addresses that the processor cannot read from it (`HighFrameIsLost`;
  `SetEntryReachesExactlyWhen`).
- `phys_to_virt` takes addresses beyond the linear map (`PastTheLinearMap`;
  `RoundTripExactlyWhen`).
- The loader's root table lies in the stack frame of a function that has returned, while
  it is in use (`OverwrittenFrameLosesImage`; `RootWordExactlyWhen`, `LoadToMemory`).

## Model

| member | source | states |
|---|---|---|
| WasmCode.GetEndAddr | kernel/src/wasm.rs:262-280 | counting depth returns the `End` that block structure assigns to the `If`, and fails exactly when there is none |
| WasmCode.SearchFindsMatchingEnd | kernel/src/wasm.rs:262-280 | on every instruction sequence the depth-counting search and the block structure agree |
| WasmCode.StandingParses | kernel/src/wasm.rs:262-280 | block structure is unique: whatever nested code stands at an address is what parsing reads there |
| WasmCode.ParseUndoesFlatten | kernel/src/wasm.rs:262-280 | parsing undoes flattening of closed code between any instructions |
| WasmCode.ParseUndoesFlattenOpen | kernel/src/wasm.rs:262-280 | parsing undoes flattening of code that ends with the instructions, unclosed `If`s included |
| WasmCode.FlattenUndoesParse | kernel/src/wasm.rs:262-280 | flattening undoes parsing, for every instruction sequence |
| WasmMachine.ArithmeticIs | kernel/src/wasm.rs:172-195 | for all operands, adding, subtracting and multiplying give the mathematical result if it is a 32-bit number and the overflow panic otherwise; comparing gives 1 or 0; the upper operand is the right one |
| WasmMachine.UnwindIs | kernel/src/wasm.rs:250-260 | unwinding keeps what lies below and brings the top value back when there is a result |
| WasmMachine.PanicsExactlyWhen | kernel/src/wasm.rs:160-280 | each of the seven reasons for which a turn panics, as an if and only if on instruction, operands, locals and store |
| WasmRerun.Simulates | kernel/src/wasm.rs:160-247 | for all code, nested or not: the machine reaches exactly the outcome of the recursion that reruns the code behind a skipped block, with the frame's labels restored, and within the turns that the code's structure gives |
| WasmRerun.SimulatesBlock | kernel/src/wasm.rs:213-238 | a block and the code behind it, entered or skipped, follow that recursion |
| WasmRerun.SimulatesCall | kernel/src/wasm.rs:125-143 | a call leaves the frames below it untouched and ends with the recursion's outcome |
| WasmInterpreter.Runtime.constructor | kernel/src/wasm.rs:105-110 | a new interpreter has empty stacks |
| WasmInterpreter.Runtime.StackUnwind | kernel/src/wasm.rs:250-260 | keeps the bottom operands, and the top one when there is a result; otherwise the panic |
| WasmInterpreter.Runtime.PushFrame | kernel/src/wasm.rs:125-143 | arguments become the first locals, the rest are zero, or the panic for missing arguments |
| WasmInterpreter.Runtime.Operate | kernel/src/wasm.rs:172-204 | operand instructions, with their panics, change only the operand stack as specified |
| WasmInterpreter.Runtime.Instruction | kernel/src/wasm.rs:171-245 | one instruction changes stack and frames as the machine's step |
| WasmInterpreter.Runtime.Execute | kernel/src/wasm.rs:160-247 | the loop ends in the final state of the run |
| WasmInterpreter.Runtime.Invoke | kernel/src/wasm.rs:145-158 | a run from a new frame, then the top operand if there is a result |
| WasmInterpreter.Runtime.Call | kernel/src/wasm.rs:112-123 | the result is the meaning of the call, which mentions nothing of the interpreter's state, and for checked functions exactly the structured value, or none when there is no result; the interpreter is ready again; the call stack has its old length exactly when the call did not run off its code |
| WasmRuntime.CallFinishes | kernel/src/wasm.rs:112-247 | every known outcome of a call is reached by the machine |
| WasmRuntime.EveryRunHasItsMeaning | kernel/src/wasm.rs:112-247 | every run that stops, stops with the recursion's outcome |
| WasmRuntime.FuelIrrelevant | kernel/src/wasm.rs:145-158 | a call has at most one known outcome |
| WasmRuntime.AcyclicCallsTerminate | kernel/src/wasm.rs:160-280 | over an acyclic call graph every call of every program terminates, however often an `End` jumps back, within a number of turns given by code and rank |
| WasmRuntime.CallTurnsBound | kernel/src/wasm.rs:160-247 | with bodies of at most s instructions, a call of rank r takes fewer than 2^((s+2)(r+1)+1) turns |
| WasmRuntime.HistoryIndependent | kernel/src/wasm.rs:112-158 | calls from any two call stacks that earlier calls may have left give the same panic or the same operands |
| WasmRuntime.ClosedCallsNeverHalt | kernel/src/wasm.rs:160-169 | when every function has its closing `End`, no call leaves frames behind |
| WasmStructured.Agrees | kernel/src/wasm.rs:160-247 | on checked code the machine's outcome is the structured result, on any stack below, with all operands under the floor kept |
| WasmStructured.AgreesBlock | kernel/src/wasm.rs:213-238 | running the code behind a skipped block twice changes nothing in checked code |
| WasmStructured.AgreesCall | kernel/src/wasm.rs:125-143 | a callee leaves the caller's operands below its arguments unchanged and puts exactly its structured result on top |
| WasmStructured.SkippedBlockAgreesExactlyWhen | kernel/src/wasm.rs:213-238 | without the check's extra condition, a skipped block has its structured meaning if and only if the code behind it does not fall through or reproduces its operands on a second run |
| WasmStructured.InterpreterIsStructured | kernel/src/wasm.rs:112-260 | every run of checked functions that stops shows the structured result; the only possible panic is overflow |
| WasmStructured.StructuredIsReached | kernel/src/wasm.rs:112-260 | every structured evaluation that ends is reached by the machine |
| WasmStructured.CallIsStructured | kernel/src/wasm.rs:112-158 | a call of checked functions answers with the structured value of its last arguments, with none when there is no result, or with the overflow panic; unknown functions and missing arguments panic |
| WasmStructured.AtBasePasses | kernel/src/wasm.rs:213-226 | valid code with the operand stack at the frame base at each `If` passes the check |
| WasmStructured.GuardedPasses | kernel/src/wasm.rs:228-232 | valid code that ends in `Return`, as all its blocks do, passes the check, at any height |
| WasmStructured.FamiliesAreSafe | kernel/src/wasm.rs:205-238 | stores mixing both kinds of functions, with calls and recursion, are safe |
| WasmSafety.StepIsSafe | kernel/src/wasm.rs:160-247 | one turn on checked functions changes no operand below the running frame and panics only on overflow |
| WasmSafety.EveryStepIsSafe | kernel/src/wasm.rs:112-260 | after any number of turns, in calls that return and in calls that never do, the caller's operands are kept, the frames of the call lie in order over them, and each can go on |
| WasmPrograms.CallSpace | kernel/src/wasm.rs:285-314 | the first demo program returns the distance to the middle for every line, with its frame gone |
| WasmPrograms.CallStar | kernel/src/wasm.rs:315-350 | the second demo program returns the number of stars for every line, with its frame gone |
| WasmPrograms.DiamondLine | kernel/src/wasm.rs:356-362 | twice the space plus the stars is the size if and only if the size is odd or the line is in the lower half, and no call panics |
| WasmPrograms.DiamondCallsReturn | kernel/src/wasm.rs:356-362 | from any call stack that earlier calls may have left, both calls stop with just their result on the operand stack and no frame left behind |
| WasmPrograms.DiamondIsSafe | kernel/src/wasm.rs:285-350 | both demo programs pass the check, for every size |
| WasmPrograms.SizeTwoIsThreeWide | kernel/src/wasm.rs:285-350 | the first line of a diamond of size 2 is three wide |
| WasmPrograms.TwiceIsValidButUnsafe | kernel/src/wasm.rs:213-238 | a program that WebAssembly validates and the check rejects |
| WasmPrograms.TwiceRuns | kernel/src/wasm.rs:213-238 | what the machine makes of it for all arguments: the addition happens twice when the block is skipped |
| WasmPrograms.TwiceAgreesExactlyWhen | kernel/src/wasm.rs:213-238 | it has its structured meaning if and only if the block is entered, or nothing is added, or the first addition overflows |
| WasmPrograms.ZeroPlusOneIsTwo | kernel/src/wasm.rs:213-238 | an input where the two meanings differ |
| WasmPrograms.ExponentiallyManyTurns | kernel/src/wasm.rs:213-238 | a function of 3k + 1 instructions, k skipped empty blocks, whose call is still running after 2^k - 1 turns |
| Bits.AndMask | kernel/src/allocator.rs:35 | a mask of digits k to m keeps exactly those digits, for all k, m and numbers |
| Bits.OrDisjoint | kernel/src/paging.rs:99 | bitwise or of numbers without a common digit is their sum |
| Bits.RoundUpIsLeast | kernel/src/allocator.rs:35 | rounding up gives the least multiple that is not below |
| Allocator.MaskRoundsUp | kernel/src/allocator.rs:35 | the mask form rounds up for every power of two |
| Allocator.LinerAllocator.constructor | kernel/src/allocator.rs:13-19 | an empty heap |
| Allocator.LinerAllocator.Init | kernel/src/allocator.rs:23-27 | the heap is the given range, all free |
| Allocator.LinerAllocator.Alloc | kernel/src/allocator.rs:31-47 | one call serves the request as the arithmetic specification says, with the overflow panic and both null cases |
| Allocator.ServeMeaning | kernel/src/allocator.rs:34-46 | the call panics if and only if the sum of `next` and the alignment overflows; otherwise null if and only if no aligned block of that size fits above `next`, and a block starts at the least aligned address from there on |
| SpinLock.StepKeepsExclusive | kernel/src/spin.rs:20-26 | at most one thread is inside, and the lock is taken exactly while one is |
| SpinLock.StepKeepsSerial | kernel/src/allocator.rs:31-47 | each step keeps the finished calls equal to a sequential history |
| SpinLock.ReplayedBlocks | kernel/src/allocator.rs:34-46 | in a sequential history all blocks are aligned, inside the heap and disjoint |
| SpinLock.ReplayedNulls | kernel/src/allocator.rs:36-42 | a null answer means that no aligned block was left at its place in the history |
| SpinLock.EveryInterleaving | kernel/src/spin.rs:20-54 | under every interleaving of any number of threads: one thread inside, a sequential history, blocks aligned, inside the heap and disjoint, null exactly when no block was left, and a panic only on the overflowing sum |
| SpinLock.AloneFinishes | kernel/src/spin.rs:20-54 | in every reachable state with a free lock, a thread that runs alone gets its answer and releases the lock, or panics exactly when the sum overflows |
| MemLayout.IndexIs | kernel/src/memlayout.rs:101-103 | shift and mask give the table index |
| MemLayout.PrefixStep | kernel/src/memlayout.rs:101-118 | the four indices are the digits of the page number |
| MemLayout.VirtToPhysExactlyWhen | kernel/src/memlayout.rs:169-184 | the addresses that `virt_to_phys` takes and what it gives for them, as an if and only if |
| MemLayout.PhysToVirtExactlyWhen | kernel/src/memlayout.rs:164-167 | the same for `phys_to_virt` |
| MemLayout.RoundTripExactlyWhen | kernel/src/memlayout.rs:164-184 | the way back leads to the same address if and only if it lies in the linear map |
| MemLayout.PastTheLinearMap | kernel/src/memlayout.rs:164-184 | an address that `phys_to_virt` takes and that has no way back |
| PageEntry.PaddrIs | kernel/src/paging.rs:92-94 | the address field is bits 12 to 62 |
| PageEntry.PaddrIsFrameExactlyWhen | kernel/src/paging.rs:92-94 | the code and the processor read the same address from an entry if and only if bits 52 to 62 are clear |
| PageEntry.RejectsExactly | kernel/src/paging.rs:95-98 | an address is rejected if and only if it is not page-aligned or uses bit 63 |
| PageEntry.SetEntryDecodes | kernel/src/paging.rs:51-101 | reading an entry gives back the address and exactly the permissions that the attribute names, none of which opens a page to user mode |
| PageEntry.SetEntryBits | kernel/src/paging.rs:16-43 | besides the address an entry has exactly the named bits of its attribute, and all others are zero |
| PageEntry.SetEntryReachesExactlyWhen | kernel/src/paging.rs:95-101 | an accepted entry leads the processor to the address asked for if and only if that lies below 2^52 |
| PageEntry.HighFrameIsLost | kernel/src/paging.rs:95-101 | frame 2^60 is accepted and the processor reads frame 0 |
| PageTree.SameWalk | kernel/src/paging.rs:103-109 | a translation depends only on what the entries on its way mean: presence, kind, frame and permissions |
| PageTree.AccessKeepsMeaning | kernel/src/paging.rs:51-101 | setting the accessed or the dirty bit of any entry leaves its meaning, so no translation changes |
| PageTree.WriteLeafElsewhere | kernel/src/paging.rs:95-101 | writing a page entry changes no translation but those that read it |
| PageTree.AttachKeepsWalk | kernel/src/paging.rs:110-121 | attaching a fresh zeroed table changes no translation at all |
| PageMap.NewTableIsFresh | kernel/src/paging.rs:115-116 | a new table is page-aligned and lies in no other table |
| PageMap.GetOrAllocKeeps | kernel/src/paging.rs:122-127 | one level down: the tree, all translations and all present entries are kept, and the way goes on |
| PageMap.EnsureKeeps | kernel/src/paging.rs:187-191 | building the way to a table keeps all translations and ends at the table of the address |
| PageMap.PutMaps | kernel/src/paging.rs:205 | writing the entry translates exactly that page as asked |
| PageMap.MapOneMaps | kernel/src/paging.rs:187-205 | one page mapped from the root: that page as asked, every other address as before |
| PageMap.MapPagesMaps | kernel/src/paging.rs:187-209 | a range of up to 2^36 pages: each address goes to its place with the given attributes, every other as before, including under new tables |
| PageMap.SameTable | kernel/src/paging.rs:197-198 | unless the index wraps, a page has the table of the page before, through all carries |
| PageHuge.PutHugeMaps | kernel/src/paging.rs:180-183 | the large entries translate exactly their gigabytes |
| PageHuge.MapHugeMaps | kernel/src/paging.rs:171-185 | the 1 GiB path translates every address as mapping page by page would |
| PageHuge.HugeAgreesWithPages | kernel/src/paging.rs:171-209 | the results of the two paths agree on every address |
| PageRoom.MapPagesHasRoom | kernel/src/paging.rs:110-209 | a range is mapped without running out of memory if the heap has room for three tables and one for each table border that it crosses |
| PageRoom.TablesBound | kernel/src/paging.rs:187-204 | those are at most six and about one for every 512 pages |
| PageTable.PageTables.New | kernel/src/paging.rs:114-116 | a zeroed table from the heap |
| PageTable.PageTables.GetOrAllocNextLevelTable | kernel/src/paging.rs:122-127 | the next table, allocated if absent |
| PageTable.PageTables.SetEntryAt | kernel/src/paging.rs:95-101 | the entry is written, or the error for a bad address |
| PageTable.PageTables.Descend | kernel/src/paging.rs:187-191 | the loop over levels reaches what the recursion reaches |
| PageTable.PageTables.TableOfPage | kernel/src/paging.rs:197-204 | the cached table, or the one found again where the index wraps, is what a walk from the root finds |
| PageTable.PageTables.MapPage | kernel/src/paging.rs:197-205 | one page in the cached table leaves the memory that mapping it from the root leaves |
| PageTable.PageTables.MapSmall | kernel/src/paging.rs:187-209 | the loop with the cached table leaves exactly the memory that independent single-page maps from the root leave |
| PageTable.PageTables.MapLarge | kernel/src/paging.rs:176-184 | the loop writes the large entries as specified |
| PageTable.PageTables.Map | kernel/src/paging.rs:155-210 | the range translates as asked and every other address as before; the tree is kept |
| PageTable.PageTables.CreateMapping | kernel/src/paging.rs:211-221 | the same translations for a size in bytes, rounded up to pages |
| PageTable.MapMaps | kernel/src/paging.rs:155-210 | both paths in one statement, and where large pages are afterwards |
| KernelSpace.InitMaps | kernel/src/paging.rs:237-287 | the five mappings give the kernel's address space |
| KernelSpace.InitHasRoom | kernel/src/paging.rs:237-287 | the five mappings succeed if the heap has room for the tables of their ranges |
| KernelSpace.MapSections | kernel/src/paging.rs:246-286 | the sections and the interrupt controller mapped in place, one after the other |
| KernelSpace.InitPaging | kernel/src/paging.rs:237-292 | the tables built in place translate every address as that address space, and building them succeeds if they fit on the heap |
| KernelSpace.KernelRegions | kernel/src/paging.rs:237-287 | the address space region by region, with permissions, and nothing else |
| KernelSpace.LinearMapInverts | kernel/src/memlayout.rs:164-167 | the walk inverts `phys_to_virt` on all 512 GiB |
| KernelSpace.WalkIsVirtToPhys | kernel/src/memlayout.rs:169-184 | the walk equals `virt_to_phys` on every mapped kernel address |
| KernelSpace.WriteXorExecute | kernel/src/paging.rs:254-286 | no address is both writable and executable |
| KernelSpace.ClosedToUser | kernel/src/paging.rs:237-287 | no address of the kernel's address space is open to user mode, over all levels of the walk |
| KernelCopy.DuplicateKernel | kernel/src/paging.rs:225-234 | the copy translates every address as the original, and its words for absent entries are zero |
| KernelCopy.DuplicateTranslates | kernel/src/paging.rs:225-234 | the copy fits into the tree, agrees with the original and changes nothing |
| KernelCopy.MapKeepsRoots | kernel/src/paging.rs:155-210 | mapping writes no root table but its own and keeps present top-level entries; through present entries it writes no root table at all |
| KernelCopy.AlikeExactlyWhen | kernel/src/paging.rs:155-234 | one mapping leaves a table and its copy alike on every address if and only if it takes pages away or each of its pages lies under a top-level entry that was present |
| KernelCopy.TwinsPart | kernel/src/paging.rs:223-234 | two empty tables that differ after one page is mapped into one of them |
| KernelCopy.TwinsStayAlike | kernel/src/paging.rs:223-234 | after any sequence of mappings under present top-level entries, on either table, the two agree on every address |
| Scheduler.TaskTable.constructor | kernel/src/task.rs:177-188 | the idle task alone, running and current |
| Scheduler.TaskTable.Spawn | kernel/src/task.rs:266-287 | the new task is last, runnable, not running, with its index as number; all else is unchanged |
| Scheduler.TaskTable.Tick | kernel/src/task.rs:168-171 | one more tick |
| Scheduler.TaskTable.FindNext | kernel/src/task.rs:207-221 | the first runnable task after the current one around the list, or none |
| Scheduler.TaskTable.Switch | kernel/src/task.rs:190-264 | the running marks, the current task and the ticks after a switch; the deadlock on the current task's own lock |
| Scheduler.TaskTable.TimerInterrupt | kernel/src/idt.rs:170-175 | a tick, and a switch at the third |
| Scheduler.OneRunsAlways | kernel/src/task.rs:177-264 | in every run of spawns, timer interrupts and switches exactly one task is marked running, the current one |
| Scheduler.HangsExactlyWhen | kernel/src/task.rs:231-233 | a switch deadlocks if and only if the current task is the only runnable one |
| Scheduler.IdleAloneHangs | kernel/src/task.rs:231-233 | when nothing is spawned the third timer interrupt deadlocks |
| Scheduler.StaysExactlyWhen | kernel/src/task.rs:204-229 | a switch stays with the current task if and only if no task is runnable, and then only the ticks start again |
| Scheduler.SwitchesAtTheThird | kernel/src/idt.rs:170-175 | a timer interrupt that is not the third since the last switch only counts |
| Scheduler.NeverHangsAgain | kernel/src/task.rs:190-287 | with a second runnable task nothing that happens later deadlocks |
| Scheduler.SwitchComesCloser | kernel/src/task.rs:204-222 | a switch comes strictly closer to every other runnable task without passing it |
| Scheduler.DispatchedWithinSwitches | kernel/src/task.rs:190-264 | a runnable task is dispatched within one switch for each other task |
| Scheduler.DispatchedWithinTimers | kernel/src/idt.rs:170-210 | and within three timer interrupts for each other task |
| Scheduler.SpawnedTaskRuns | kernel/src/task.rs:266-287 | a task spawned in any reachable state is dispatched within three timer interrupts for each task that was there, and no later event deadlocks |
| ContextSwitch.SaveWaits | kernel/src/task.rs:111-122 | the saved context and stack make the old task wait behind its call |
| ContextSwitch.LoadResumes | kernel/src/task.rs:123-136 | the loads and returns put a waiting task where it waits |
| ContextSwitch.SwitchResumes | kernel/src/task.rs:107-137 | both halves together, touching no other memory |
| TaskRuns.FreshWaits | kernel/src/task.rs:59-77 | the initial context makes a new task wait at its entry function |
| TaskRuns.RunKeepsInv | kernel/src/task.rs:231-261 | over any run every task that does not run waits: its saved stack pointer is at label 2 or at its entry |
| TaskRuns.ResumedAtItsCall | kernel/src/task.rs:107-137 | over any run a resumed task returns to its own call site with its registers, stack pointer and flags |
| TaskRuns.StartsAtItsEntry | kernel/src/task.rs:59-77 | over any run a new task starts at its entry function, at the top of its area, with empty registers and interrupts enabled |
| TaskRuns.FirstWordInStackExactlyWhen | kernel/src/task.rs:60-64 | the first word lies in the allocated stack if and only if the step is at most an eighth of its size in words; with the step of the code it lies seven stack sizes further on |
| TaskRuns.UsedAreasOkExactlyWhen | kernel/src/task.rs:60-66 | the memory that tasks really use is disjoint if and only if their allocations and contexts are and no context lies seven stack sizes behind an allocation |
| TaskRuns.CodeSpawnKeepsInv | kernel/src/task.rs:59-69 | spawning at the address the code computes keeps the invariant of all runs, under that condition |
| TaskSystem.EveryTaskSeesTheKernel | kernel/src/task.rs:266-287 | after the kernel's table is built and any number of tasks are spawned, each task's table translates every address as the kernel's address space |
| TaskSystem.TimerComesCloser | kernel/src/idt.rs:170-210 | a timer interrupt comes closer to every other runnable task, which keeps waiting where it waits or goes on exactly there |
| TaskSystem.ResumedWithinTimers | kernel/src/task.rs:190-264 | a waiting runnable task goes on where it waits, with its own table in use, within three timer interrupts for each other task, whatever the others do |
| TaskSystem.PreemptedTaskComesBack | kernel/src/idt.rs:170-175 | a task that a timer interrupt switches away from goes on behind that call, with its registers, stack pointer and flags, within that bound |
| Interrupt.PushesStore | kernel/src/idt.rs:121-137 | any list of pushes puts each register into its slot, the stack pointer's own value included |
| Interrupt.PopsRestore | kernel/src/idt.rs:145-161 | the pops in reverse order restore them all, through `pop rsp` |
| Interrupt.HandlerCallIsAligned | kernel/src/idt.rs:119-143 | the handler gets the complete frame on a 16-byte-aligned stack (section 3.2.2 of the System V AMD64 ABI) |
| Interrupt.FieldIsRightExactlyWhen | kernel/src/idt.rs:21-40 | field i of the saved registers reads the register it is named after if and only if it is the first or one of the last eight, or the register pushed there holds the same value |
| Interrupt.RbxReadsRcx | kernel/src/idt.rs:21-40 | an input where field `rbx` reads `rcx` |
| Interrupt.HandlerSeesItsVector | kernel/src/idt.rs:44-143 | for entries with and without an error code, the vector, the error code and the five words of the hardware lie where the struct has them |
| Interrupt.MaskAligns | kernel/src/idt.rs:142 | the mask that the processor model applies rounds down to a multiple of 16 |
| Interrupt.InterruptRestoresRegisters | kernel/src/idt.rs:119-163 | after any handler that keeps the stack above it, all registers and the stack pointer are back |
| Loader.GetKernelSize | loader/src/main.rs:177-192 | the least start addresses and the greatest end of the loadable segments, each met by one of them; the initial values when there is none |
| Loader.PhysicalMemory.LoadSegments | loader/src/main.rs:155-172 | memory after copying and clearing segment by segment; every byte outside them is kept |
| Loader.SegmentBytes | loader/src/main.rs:155-172 | every byte of disjoint segments is the file's, or zero past the file part |
| EarlyPaging.CanonicalizeMeans | loader/src/paging.rs:40-46 | the result is canonical and selects the same entries; canonical addresses stay |
| EarlyPaging.AlignedSizeTakesSamePages | loader/src/paging.rs:102-104 | the mask form rounds up to whole pages without changing their number |
| EarlyPaging.EarlyTableMaps | loader/src/paging.rs:252-317 | the two mappings into a root table send the linear map and the whole image to where they belong, and leave every other canonical address as it was |
| EarlyPaging.CopiedRootOk | loader/src/paging.rs:347-354 | the copy of all 512 entries fits into the tree of tables and translates as the firmware's root |
| EarlyPaging.EarlyTableOk | loader/src/paging.rs:356-374 | the copy has the linear map, the image and elsewhere what the firmware's root has, on every canonical address, and the firmware's root words are unchanged |
| EarlyPaging.EarlyHasRoom | loader/src/paging.rs:356-375 | the early mappings succeed if their tables fit |
| EarlyPaging.InitEarlyPaging | loader/src/paging.rs:356-375 | the copy and the two mappings built in place, with the same promises |
| EarlyPaging.RootWordExactlyWhen | loader/src/paging.rs:374 | whatever the root words hold, an image address is translated if and only if its root word is present, unrestricted and for a table that leads there |
| EarlyPaging.KeptWordsKeepImage | loader/src/paging.rs:374 | after any writes an address translates as before if its root word and the tables below still mean the same, accessed and dirty bits aside |
| EarlyPaging.OverwrittenFrameLosesImage | loader/src/paging.rs:356-375 | an image that is mapped, and is not any more when the copy's words are overwritten |
| Loader.ByteInImage | loader/src/main.rs:142-153 | every segment byte lies in the allocated pages, where its virtual address is mapped to |
| Loader.LoadToMemory | loader/src/main.rs:126-175 | for any contents that later calls leave in the dead frame: every byte of the image is loaded, all others are kept, and a byte is visible if and only if its root word still leads there; wherever the root word still means the same, every canonical address translates as in the early table; the firmware's root is unchanged |

## Left out

- WasmInterpreter.Runtime.Execute: takes a ghost bound on the number of turns of a run that stops, because a Dafny method has to terminate; `WasmSafety.EveryStepIsSafe` covers the steps of calls that never return. The bound is no part of the computation, and `AcyclicCallsTerminate` provides it for acyclic call graphs.
- WasmStructured.Check: sufficient for the structured meaning, not necessary; code such as adding zero twice is rejected though it does no harm. `SkippedBlockAgreesExactlyWhen` gives the exact condition block by block.
- Multi-value results and wrapping `i32` arithmetic: the interpreter has neither.
- PageTable.PageTables.Map: requires what the code asserts or would otherwise panic or misbehave on: page alignment, no overflow of the range, tables that form a tree, no large page in the way of a small one, and the 1 GiB path inside one top-level slot. A range has at most 2^36 pages, and physical addresses end at 2^52, where the processor's do; `SetEntryReachesExactlyWhen` says what happens above.
- PageTree.Walk: caching and the translation lookaside buffer.
- KernelSpace.InitPaging: takes the linker's section addresses as input, page-aligned at their starts, in order and above the code base.
- KernelCopy.TwinsStayAlike: is about mappings under top-level entries that were present at the copy; `AlikeExactlyWhen` says what a mapping under an absent one does.
- EarlyPaging.EarlyTableMaps: new tables come from the bump allocator's model at linear-map addresses, not from the firmware's allocator at identity-mapped addresses; the address increment is the plain sum, which `CanonicalizeMeans` shows equal on canonical ranges.
- Loader.LoadToMemory: firmware calls, ELF parsing and page allocation are inputs; the segments are disjoint with one virtual-to-physical offset, start on a page and lie at canonical addresses outside the linear map, and the firmware's tables have no large page in their way. Of the writes after `init_early_paging` only those to its dead frame are arbitrary; that the segments are not loaded over page tables is left to the firmware's page allocation.
- SpinLock.EveryInterleaving: memory ordering is sequentially consistent, and interrupt masking is not modelled.
- Scheduler.OneRunsAlways: each switch is one atomic step, and fewer than three ticks were counted before `init`; a third one would find no current task and panic.
- Scheduler.TaskTable.Spawn: the scheduler's part of `spawn`; the stack is in `TaskRuns`, the page table in `TaskSystem`.
- ContextSwitch.SwitchResumes: memory is in words at 8-byte steps, the stack of the task switched from has room for two more words, and the two tasks' memory is disjoint; writing `cr3` is in `TaskSystem`.
- TaskRuns.RunKeepsInv: what a task executes between switches is any change that leaves the contexts and the other tasks' stacks alone, and new memory is disjoint from all other; that the code keeps to this is not proved.
- Interrupt.InterruptRestoresRegisters: stops before the call of the scheduler at the end of the entry code.
- UART, logging, port I/O, control registers, the APIC timer's registers, GDT, TSS and IDT descriptors, and the memory region arrays: device registers and table layouts without an invariant that spans operations.
