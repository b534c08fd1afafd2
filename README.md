# Paged virtual memory of a teaching OS simulator, in Dafny

This project models the kernel of a small Java operating-system simulator. The simulated machine
has a CPU with ten registers and a word-addressed physical memory split into frames of `tamPg`
words. The kernel (`SO`) gives every process a page table of `PageTableEntry` records. At creation
it loads only page 0. Every access goes through `traduzEndereco`. A missing page raises a page
fault: the fault handler takes a free frame or evicts a victim and queues a save of the victim's
page and a load of the missing page on a disk worker (`DiskDevice`). It then blocks the process
until the load completes. A round-robin `Scheduler` moves processes between the running slot and
the ready and blocked queues. A swap `Disk` with slot allocation and its completion callbacks
(`DiskCallback`), the system-call handler (`SysCallHandling`) and the state-change logger
(`StateLogger`) complete the core.

Modules, one per file:

- `Words` (words.dfy): 32-bit ints and wrap-around, opcodes, memory words, interrupts,
  `Option`/`Outcome`.
- `Text` (text.dfy): decimal rendering for the logger.
- `PhysicalMemory` (memory.dfy): the `Memory` class over an `array<Word>`.
- `FrameAllocator` (memory_manager.dfy): the first-fit `MemoryManager` and the `FrameTable` that
  page-fault handling uses.
- `PageTable` (page_table_entry.dfy): `PageTableEntry`.
- `Process` (pcb.dfy): the `PCB` class.
- `Paging` (paging.dfy): address translation, page loading and required-size computation, as
  specification functions.
- `Cpu` (cpu.dfy): the fetch-execute step as a function `StepSpec`, and the `CPU` class proved
  against it.
- `Scheduling` (scheduler.dfy): the `Scheduler` class.
- `SwapDisk` (disk.dfy): the `Disk` class and its slot-store specification.
- `StateLog` (state_logger.dfy): the page-table rendering and the log line.
- `Kernel` (kernel.dfy): `SO` and `DiskDevice`, which refer to each other.
- `DiskCallbacks` (disk_callback.dfy) and `SysCalls` (syscalls.dfy).

Clock readings (`System.currentTimeMillis`, the logger's timestamp) are parameters (`now`,
`timestamp`). An unchecked exception that escapes a method is an explicit outcome (`Outcome.Threw`,
`threw: bool`, `Translation.AddressError`), not a precondition. Where the kernel's handling of a
page fault blocks on a lock or hands work to a thread, the model takes the single-threaded
interleaving in which each call runs to its end.

## Model

| member | source | states |
|---|---|---|
| Words.Wrap32 | src/hardware/CPU.java:262-271 | the result is the argument's value modulo 2^32 and equals the argument whenever it already fits in an `int` |
| Words.CeilDiv | src/software/PCB.java:42-58 | the page count is the least `q >= 0` with `q * d >= n` (the `Math.ceil` of the division) |
| Words.MakeWord | src/hardware/Word.java:9-14 | the word keeps every constructor argument (the intended constructor) |
| Words.WordAsWritten | src/hardware/Word.java:9-14 | the constructor as written: whatever the arguments, the word keeps a null opcode and zero fields |
| Words.WordAsWrittenForgetsArguments | src/hardware/Word.java:9-14 | as written, every constructed word is the same object state, with a null opcode, whatever the arguments |
| Words.MakeWordInjective | src/hardware/Word.java:9-14 | the intended constructor is injective: equal words come from equal arguments |
| PhysicalMemory.WrittenPageReadsBack | src/hardware/Memory.java:34-39 | a page written wholly inside memory reads back as written and every other position is unchanged |
| PhysicalMemory.Memory.constructor | src/hardware/Memory.java:9-17 | `tamMem` positions, each the empty word, and `tamMem / tamPg` frames |
| PhysicalMemory.Memory.Read | src/hardware/Memory.java:27-32 | the word at an address inside memory; any other address throws |
| PhysicalMemory.Memory.Write | src/hardware/Memory.java:34-39 | throws exactly for an address outside memory; otherwise only that position changes |
| PhysicalMemory.Memory.ReadFrame | src/hardware/Memory.java:47-57 | returns iff the frame lies inside memory, and then returns exactly the frame's words |
| PhysicalMemory.Memory.WritePage | src/software/DiskCallback.java:29-32 | the word-by-word copy loop: memory becomes `WriteRange` of the old memory (the prefix before the first out-of-range address is written) and it throws iff the page does not fit |
| FrameAllocator.FreeIndicesSpec | src/menagers/MemoryManager.java:27-49 | the first-fit scan lists exactly the free frames, each once, in increasing order |
| FrameAllocator.FreeIndicesPrefix | src/menagers/MemoryManager.java:27-49 | the free frames of a prefix of the map are a prefix of its free frames |
| FrameAllocator.FreeIndicesStep | src/menagers/MemoryManager.java:33-40 | one more frame scanned extends the free list by that frame exactly when it is free |
| FrameAllocator.OccupiedBeforeRollback | src/menagers/MemoryManager.java:41-47 | after a scan that could not find enough frames, every frame is occupied or was taken by the scan |
| FrameAllocator.OccupyFirstFit | src/menagers/MemoryManager.java:33-40 | a scan stopped at `i` has occupied exactly the free frames below `i` |
| FrameAllocator.FirstFitChoice | src/menagers/MemoryManager.java:27-49 | the frames allocated are the `n` lowest free frames: distinct, increasing, each free before |
| FrameAllocator.ReleaseUndoesOccupy | src/menagers/MemoryManager.java:54-64 | deallocating what allocate occupied restores the frame map |
| FrameAllocator.MemoryManager.constructor | src/menagers/MemoryManager.java:13-22 | `memSize / pgSize` frames, all free; every position holds the zero datum |
| FrameAllocator.MemoryManager.Allocate | src/menagers/MemoryManager.java:27-49 | all or nothing: with enough free frames the `ceil(w / pgSize)` lowest are occupied and returned; otherwise null and the map is unchanged (the rollback) |
| FrameAllocator.MemoryManager.Rollback | src/menagers/MemoryManager.java:41-47 | freeing the frames taken so far restores the map as it was before the scan |
| FrameAllocator.MemoryManager.Deallocate | src/menagers/MemoryManager.java:54-64 | false and no change for a null or empty table; otherwise every in-range listed frame is freed and nothing else changes |
| FrameAllocator.MemoryManager.Write | src/menagers/MemoryManager.java:86-93 | true iff the address is inside memory, and then only that position becomes a DATA word holding the value |
| FrameAllocator.FrameTable.constructor | src/software/SO.java:52-84 | every frame free, unlocked and unowned |
| FrameAllocator.FrameTable.AllocateFrame | src/software/SO.java:123-127 | the lowest frame neither occupied nor locked becomes occupied and owned by (pcb, page); a negative result means every frame is occupied or locked, and then nothing changes |
| FrameAllocator.FrameTable.SelectVictim | src/software/SO.java:245-248 | the lowest occupied unlocked frame; negative iff there is none (a locked frame is never a victim) |
| FrameAllocator.FrameTable.GetFrameOwner | src/software/SO.java:250-253 | the owner recorded for the frame, null iff none is |
| FrameAllocator.FrameTable.LockFrame | src/software/SO.java:266 | only the frame's lock bit is set, and only for a frame in range |
| FrameAllocator.FrameTable.UnlockFrame | src/software/SO.java:217 | only the frame's lock bit is cleared, and only for a frame in range |
| FrameAllocator.FrameTable.AssignFrame | src/software/SO.java:282 | the frame becomes occupied and owned by (pcb, page); locks are unchanged |
| FrameAllocator.FrameTable.DeallocateFrame | src/software/SO.java:145 | the frame becomes free and unowned; an out-of-range frame changes nothing |
| PageTable.NotLoadedEntry | src/software/PageTableEntry.java:13-19 | no frame, invalid, unmodified, no disk address; rendered `not_loaded` |
| PageTable.ResidentEntry | src/software/PageTableEntry.java:21-27 | the given frame, valid, unmodified, no disk address |
| PageTable.ToStringClassifies | src/software/PageTableEntry.java:30-38 | the rendering names exactly one location (resident iff valid, on disk iff invalid with a disk address, else not loaded), recognisable from its prefix |
| Process.ProgramPage | src/software/PCB.java:84-100 | the page is always `pageSize` words long |
| Process.ProgramPageInside | src/software/PCB.java:84-100 | a page wholly inside the image is the image's slice |
| Process.ProgramPageAtEnd | src/software/PCB.java:84-100 | the page holding the image's end is the rest of the image followed by filler words |
| Process.ProgramPageBeyond | src/software/PCB.java:84-100 | with no image, or a page past the image, the page is all filler |
| Process.PCB.constructor | src/software/PCB.java:42-58 | a NEW process with zero registers and pc, `ceil(size / tamPg)` pages all not loaded, an int table of zeros, no image, no disk slots |
| Process.PCB.SetProgramImage | src/software/PCB.java:66-75 | the image and page size are installed, the page count recomputed, and the int table reallocated only when missing or of the wrong length |
| Process.PCB.GetProgramPage | src/software/PCB.java:84-100 | never null: `pageSize` words, each the image word at `n * pageSize + i` or filler |
| Process.PCB.GetPageToEvict | src/software/PCB.java:127-131 | -1 iff there is no page; otherwise page 0, the first |
| Process.PCB.GetDiskSlotForPage | src/software/PCB.java:142-144 | the recorded slot, -1 when none is recorded |
| Process.PCB.SetDiskSlotForPage | src/software/PCB.java:152-154 | the page now maps to the slot and every other page keeps its slot |
| Paging.FindProgram | src/software/SO.java:387-398 | the first program with the name, or none iff no program has it |
| Paging.DivBounds | src/software/SO.java:160-162 | for a non-negative address, page and offset split the address with `0 <= offset < tamPg` |
| Paging.TranslateSpec | src/software/SO.java:153-198 | translation yields a physical address iff the address is non-negative, inside the table, and its entry is valid with a frame, and then it is `frame * tamPg + offset` inside that frame; an invalid entry is a page fault; everything else is an error |
| Paging.Translate | src/software/SO.java:153-187 | the corrected translation: a missing table or a negative address is an error; otherwise the table lookup of the address's page and offset (TranslateSpec gives the outcomes) |
| Paging.TranslateAsWritten | src/software/SO.java:153-187 | the translation as written, with Java's truncating `/` and `%`: a missing table or a page index below zero (any address at or below `-tamPg`) is an error; otherwise the table lookup of page and offset |
| Paging.TranslationsAgreeOnNonNegative | src/software/SO.java:160-187 | on non-negative addresses the corrected translation is the one written |
| Paging.NegativeAddressLeavesTheFrame | src/software/SO.java:160-187 | as written, address -1 with page 0 in frame 1 and 8-word pages translates to 7, in frame 0; the corrected translation refuses it |
| Paging.PageImage | src/software/SO.java:322-342 | the words a page load puts in a frame: always `tamPg` of them |
| Paging.AsWrittenLoadAgreesWhenPageMeetsImage | src/software/SO.java:322-342 | for a page that meets the image, the load as written writes exactly the corrected page |
| Paging.AsWrittenLoadClobbersAnotherFrame | src/software/SO.java:327-340 | as written, page 5 of a 20-word image (8-word pages) into frame 3 copies -20 words and zero-fills position 4, in frame 0; the corrected load leaves it alone |
| Paging.SaveLoadRoundTrip | src/hardware/DiskDevice.java:81-124 | writing frame g with the words read from frame f makes frame g hold them |
| Paging.FrameInsideMemory | src/hardware/Memory.java:9-17 | a frame number below the frame count names a frame wholly inside memory |
| Paging.NeededUpTo | src/software/SO.java:366-380 | the running maximum covers the image length and every scanned instruction's address + 1, and is one of them |
| Paging.ComputeRequiredWords | src/software/SO.java:366-380 | the least size covering the image and every address an instruction names |
| Paging.ResidentFramesStep | src/software/SO.java:143-147 | the frames of a table prefix grow by the next entry's frame exactly when it is valid with a frame |
| Cpu.IsValidInstruction | src/hardware/CPU.java:191-204 | null, DATA and the blank opcode are refused; the rest are accepted |
| Cpu.FaultMapping | src/hardware/CPU.java:155-189 | a page fault raises intPageFault, any other failure intEnderecoInvalido; a clean read returns the translated word, a clean write changes that one word |
| Cpu.PendingInterruptStalls | src/hardware/CPU.java:212-238 | with an interrupt pending a step returns at once and changes nothing else |
| Cpu.PendingInterruptLivelock | src/hardware/CPU.java:212-238 | once an interrupt is left pending, any number of further steps change nothing |
| Cpu.DataNeverExecutes | src/hardware/CPU.java:234-237 | a DATA or blank word raises intInstrucaoInvalida and leaves pc, registers and memory alone |
| Cpu.TransferFrame | src/hardware/CPU.java:240-261 | a transfer keeps the counter, the fetched word and the register file's size, writes memory only as STD or STX, never returns early, and moves pc by at most one |
| Cpu.ArithFrame | src/hardware/CPU.java:262-271 | an arithmetic instruction keeps memory and the counter, moves pc by at most one, and returns early only on overflow, with intOverflow set and pc unchanged |
| Cpu.OverflowStalls | src/hardware/CPU.java:262-271 | a step whose arithmetic instruction overflows ends with intOverflow pending and pc, counter and memory unchanged: it returns before the counter and the dispatch |
| Cpu.CondJumpFrame | src/hardware/CPU.java:278-295 | a conditional jump keeps registers, memory and the counter, returns early only with an interrupt set, and lands on pc, pc + 1 or an address inside memory |
| Cpu.JumpFrame | src/hardware/CPU.java:272-297 | the same for every jump opcode |
| Cpu.ExecuteFrame | src/hardware/CPU.java:239-315 | an instruction never touches the counter, the fetched word or the register file's size; non-stores keep memory; an early return always leaves an interrupt set |
| Cpu.ExecutePcMoves | src/hardware/CPU.java:272-297 | every jump target passed the address check |
| Cpu.OnlyStoresWriteMemory | src/hardware/CPU.java:239-315 | a step whose word is not STD or STX leaves memory unchanged |
| Cpu.StoreWritesOneWord | src/hardware/CPU.java:250-259 | a store changes at most one word, the DATA word holding the register, at the translated address |
| Cpu.PcStaysInBounds | src/hardware/CPU.java:212-350 | after a step, pc is unchanged, moved by one, or an address inside memory |
| Cpu.RegisterFileKeepsSize | src/hardware/CPU.java:212-350 | a step keeps the register file's size |
| Cpu.CountOnlyOnCleanSteps | src/hardware/CPU.java:317-323 | the time-slice counter moves only on instructions that raised no interrupt |
| Cpu.TimeSlice | src/hardware/CPU.java:317-323 | in preemptive mode the counter stays in `[0, delta)` and the timer fires exactly when it reaches `delta` |
| Cpu.DispatchClears | src/hardware/CPU.java:326-343 | a step that reaches the interrupt check leaves no interrupt pending |
| Cpu.AddOverflowExact | src/hardware/CPU.java:262-269 | for in-range operands ADD and SUB report overflow exactly when the true result leaves `[minInt, maxInt]` |
| Cpu.MultWrapEscapesOverflowCheck | src/hardware/CPU.java:270-271 | MULT of 65536 by 65536 wraps to 0 and raises no overflow |
| Cpu.AsWrittenWordsNeverExecute | src/hardware/Word.java:9-14 | words built by the constructor as written are never valid instructions; with the intended constructor every opcode but DATA and blank is |
| Cpu.CPU.constructor | src/hardware/CPU.java:56-72 | ten zero registers, a five-instruction slice, preemption on, no process |
| Cpu.CPU.SetContext | src/hardware/CPU.java:95-103 | pc and registers come from the process; no interrupt, a fresh slice, the process's trace flag |
| Cpu.CPU.SetContextPc | src/hardware/CPU.java:206-210 | the new pc, no interrupt, a fresh slice |
| Cpu.CPU.SaveContext | src/hardware/CPU.java:121-124 | the process receives the CPU's pc and registers; the CPU's registers are unchanged |
| Cpu.CPU.ContextRoundTrip | src/hardware/CPU.java:95-124 | loading one context and saving into another hands over the first process's pc and registers unchanged |
| Cpu.CPU.VerifyOverflow | src/hardware/CPU.java:126-133 | true iff the value is in `[minInt, maxInt]`; otherwise intOverflow is raised |
| Cpu.CPU.IsValidAddress | src/hardware/CPU.java:135-141 | true iff `0 <= a < tamMem`; otherwise intEnderecoInvalido is raised |
| Cpu.CPU.ReadMemory | src/hardware/CPU.java:155-171 | behaves as `Load` (see FaultMapping) |
| Cpu.CPU.WriteMemory | src/hardware/CPU.java:173-189 | behaves as `Store` (see FaultMapping) |
| Cpu.CPU.Jump | src/hardware/CPU.java:272-273 | behaves as `JumpTo`: a checked jump |
| Cpu.CPU.ArithStore | src/hardware/CPU.java:262-271 | behaves as `Arith`: stores the wrapped result, then checks overflow |
| Cpu.CPU.ExecTransfer | src/hardware/CPU.java:240-261 | behaves as `ExecuteTransfer` for LDI, LDD, LDX, STD, STX and MOVE |
| Cpu.CPU.ExecArith | src/hardware/CPU.java:262-271 | behaves as `ExecuteArith` |
| Cpu.CPU.ExecCondJump | src/hardware/CPU.java:278-297 | behaves as `CondJump` |
| Cpu.CPU.ExecJumpIndirect | src/hardware/CPU.java:274-277 | behaves as `JumpIndirect` |
| Cpu.CPU.ExecCondJumpIndirect | src/hardware/CPU.java:290-295 | behaves as `CondJumpIndirect` |
| Cpu.CPU.ExecJump | src/hardware/CPU.java:272-297 | behaves as `ExecuteJump` |
| Cpu.CPU.ExecuteInstruction | src/hardware/CPU.java:239-315 | behaves as `Execute`, the instruction switch |
| Cpu.CPU.CountAndDispatch | src/hardware/CPU.java:316-343 | an interrupt-free instruction advances the counter by `Tick` (the timer fires at the end of the slice); the pending interrupt is reported and cleared |
| Cpu.StepSpec | src/hardware/CPU.java:212-343 | one fetch-execute step as a function: a stopped CPU halts and changes nothing; otherwise fetch, the pending-interrupt guard, the validity check, the instruction switch and the count and dispatch (the Cpu lemmas state its properties) |
| Cpu.CPU.Step | src/hardware/CPU.java:212-350 | one step is exactly `StepSpec`, so every Cpu lemma above holds of it |
| Scheduling.WithoutPid | src/software/Scheduler.java:130-149 | removeIf never grows the queue |
| Scheduling.WithoutPidSpec | src/software/Scheduler.java:130-149 | removeIf keeps exactly the PCBs with another pid |
| Scheduling.WithoutPidConcat | src/software/Scheduler.java:130-149 | removeIf keeps the relative order |
| Scheduling.WithoutPidAbsent | src/software/Scheduler.java:130-149 | a queue without that pid is unchanged |
| Scheduling.RemoveFirstSpec | src/software/Scheduler.java:111-128 | remove takes out exactly one occurrence when there is one, nothing otherwise |
| Scheduling.RoundRobin | src/software/Scheduler.java:46-83 | after `k` time slices the first `k` processes have moved, in order, behind the others |
| Scheduling.FullRoundRestoresOrder | src/software/Scheduler.java:46-83 | a full round of slices restores the order |
| Scheduling.Scheduler.constructor | src/software/Scheduler.java:19-28 | empty queues, nothing running |
| Scheduling.Scheduler.AddToReady | src/software/Scheduler.java:30-44 | the process becomes READY and is appended to the ready queue |
| Scheduling.Scheduler.OnTimer | src/software/Scheduler.java:46-65 | the running process's context is saved, it becomes READY at the tail of the ready queue and nothing runs |
| Scheduling.Scheduler.ScheduleNext | src/software/Scheduler.java:67-83 | with nothing running, the head of the ready queue leaves it, becomes RUNNING and has its context loaded; otherwise no change |
| Scheduling.Scheduler.BlockRunningProcess | src/software/Scheduler.java:88-106 | the running process's context is saved, it becomes BLOCKED at the tail of the blocked queue and nothing runs |
| Scheduling.Scheduler.UnblockProcess | src/software/Scheduler.java:111-128 | the process leaves the blocked queue (one occurrence), becomes READY and joins the ready queue |
| Scheduling.Scheduler.RemoveProcess | src/software/Scheduler.java:130-149 | no PCB with the pid is queued or running afterwards; the other processes keep their order |
| Scheduling.Scheduler.HasReadyProcesses | src/software/Scheduler.java:160-162 | true iff something is ready, running or blocked |
| Scheduling.Scheduler.TimeSliceRound | src/software/Scheduler.java:46-83 | a timer tick followed by a dispatch rotates [running] + ready by one |
| SwapDisk.FirstUnused | src/hardware/Disk.java:59-69 | the lowest unused slot, -1 iff all are used |
| SwapDisk.FirstUnusedAt | src/hardware/Disk.java:59-69 | the scan's stopping point is the lowest unused slot |
| SwapDisk.AllocateSpec | src/hardware/Disk.java:59-69 | -1 and no change on a full disk; otherwise the lowest unused slot becomes used and, if it was null, holds an empty page |
| SwapDisk.FreeSpec | src/hardware/Disk.java:77-82 | an in-range slot becomes unused and null; nothing else changes |
| SwapDisk.ReadSpec | src/hardware/Disk.java:90-93 | the page iff the slot is in range and used |
| SwapDisk.WriteSpec | src/hardware/Disk.java:101-105 | an in-range slot holds the data and is used; nothing else changes |
| SwapDisk.PageOutSpec | src/hardware/Disk.java:148-182 | the page-out body keeps the store well formed |
| SwapDisk.WriteThenRead | src/hardware/Disk.java:90-105 | writing then reading a slot gives back the data |
| SwapDisk.FreeThenRead | src/hardware/Disk.java:77-93 | a freed slot reads as nothing |
| SwapDisk.AllocatedSlotIsEmptyPage | src/hardware/Disk.java:45-69 | a fresh slot that was null reads back as a page of filler |
| SwapDisk.PageOutDiskFull | src/hardware/Disk.java:148-182 | with no slot given on a full disk nothing is stored and the listener gets -1 |
| SwapDisk.PageOutGivenSlot | src/hardware/Disk.java:148-182 | a given slot receives the page, which then reads back, and is reported |
| SwapDisk.PageOutFreshSlot | src/hardware/Disk.java:148-182 | with no slot given and room left, the lowest unused slot receives the page and is reported |
| SwapDisk.Disk.constructor | src/hardware/Disk.java:31-38 | every slot null and unused |
| SwapDisk.Disk.EmptyPage | src/hardware/Disk.java:45-51 | `pageSize` filler words |
| SwapDisk.Disk.AllocateSlot | src/hardware/Disk.java:59-69 | behaves as AllocateSpec |
| SwapDisk.Disk.FreeSlot | src/hardware/Disk.java:77-82 | behaves as FreeSpec |
| SwapDisk.Disk.ReadSlotSync | src/hardware/Disk.java:90-93 | behaves as ReadSpec |
| SwapDisk.Disk.WriteSlotSync | src/hardware/Disk.java:101-105 | behaves as WriteSpec |
| SwapDisk.Disk.RequestPageOut | src/hardware/Disk.java:148-182 | behaves as PageOutSpec, including the slot the listener is given |
| SwapDisk.Disk.RequestPageIn | src/hardware/Disk.java:117-137 | the listener is called iff there is one and the slot is below the slot count; the store is unchanged |
| StateLog.FramePart | src/software/StateLogger.java:63-91 | "-" iff the page is not in main memory, otherwise the frame's digits |
| StateLog.LocationPart | src/software/StateLogger.java:63-91 | "mp" iff in main memory, "ms" iff on disk only, "--" iff never loaded |
| StateLog.FormatPageTable | src/software/StateLogger.java:63-91 | always braced; "{}" for a null or empty table |
| StateLog.CountConcat | src/software/StateLogger.java:63-91 | occurrence counts add over concatenation |
| StateLog.CountNone | src/software/StateLogger.java:63-91 | a string without the character counts zero of it |
| StateLog.OneBracketPerEntry | src/software/StateLogger.java:70-88 | each rendered entry opens exactly one bracket |
| StateLog.OneItemPerPresentEntry | src/software/StateLogger.java:63-91 | the rendering holds exactly one item per non-null entry |
| StateLog.NullFirstEntryLeavesLeadingSeparator | src/software/StateLogger.java:70-88 | a null first entry leaves the output starting with a separator |
| StateLog.AllNullIsEmpty | src/software/StateLogger.java:63-91 | a table of null entries renders no items |
| StateLog.AllPresent | src/software/StateLogger.java:70-74 | a table with no null slot has every entry present, so none is skipped |
| StateLog.FormatItems | src/software/StateLogger.java:63-91 | the rendering of a process's table opens exactly one bracket per page, none for a null table |
| StateLog.ItemsInLine | src/software/StateLogger.java:45 | bracket-free text followed by the page-table rendering opens exactly one bracket per page of the table |
| StateLog.Log | src/software/StateLogger.java:32-61 | nothing for a null process; otherwise the line starts with timestamp, pid and name, holds the reason (or "-") and both states (or "NULL"), all separated by " ; ", and ends with the page-table rendering; with bracket-free free text it opens one bracket per page |
| Kernel.Evicted | src/software/SO.java:262-264 | the victim entry becomes invalid without a frame and keeps its disk address and modified flag |
| Kernel.DiskDevice.constructor | src/hardware/DiskDevice.java:56-62 | an empty queue and store; disk addresses start at 0 |
| Kernel.DiskDevice.AddOperation | src/hardware/DiskDevice.java:67-75 | the operation joins the tail of the FIFO |
| Kernel.DiskDevice.SavePage | src/hardware/DiskDevice.java:81-100 | the frame's words are stored under a new address, which is returned; a frame outside memory throws and stores nothing |
| Kernel.DiskDevice.LoadPage | src/hardware/DiskDevice.java:105-124 | an unknown address writes nothing; a known one writes its words into the frame |
| Kernel.DiskDevice.GetDiskStorageSize | src/hardware/DiskDevice.java:226-228 | the number of saved pages |
| Kernel.DiskDevice.ProcessOperation | src/hardware/DiskDevice.java:169-213 | a save stores the frame and records the address in the victim's entry; a load fills the frame from the saved words or the program image and maps the entry, valid and unmodified, to that frame |
| Kernel.DiskDevice.ProcessNext | src/hardware/DiskDevice.java:144-156 | the oldest operation leaves the queue and is processed with ProcessOperation's effect on the store, the entry, memory and the lock; an empty queue changes nothing |
| Kernel.SO.constructor | src/software/SO.java:52-84 | no process, every frame free, empty queues and disk, pid 1 next |
| Kernel.SO.GetPCB | src/software/SO.java:613-615 | the PCB with the pid, null iff none |
| Kernel.SO.GmAloca | src/software/SO.java:114-138 | records the page count; false iff no frame is free (no change); otherwise only page 0 is mapped, valid, to a newly occupied frame; a missing table throws |
| Kernel.SO.GmDesaloca | src/software/SO.java:140-151 | frees exactly the frames of the valid entries and drops the table; a null table changes nothing |
| Kernel.SO.CarregaPagina | src/software/SO.java:322-342 | the corrected load: the frame receives the image's words of that page padded with zero words, throwing iff the frame is outside memory |
| Paging.CarregaPaginaAsWritten | src/software/SO.java:322-342 | the load as written: the image's words of the page copied into the frame, then the zero fill from the copied count, which is negative for a page past the image (AsWrittenLoadClobbersAnotherFrame) |
| Kernel.SO.CarregaPaginaFromDisk | src/software/SO.java:348-364 | with no program of that name nothing changes; otherwise as CarregaPagina with its image |
| Kernel.SO.OnPageLoaded | src/software/SO.java:214-226 | the frame is unlocked; the entry becomes unmodified with the new access time |
| Kernel.SO.EvictVictim | src/software/SO.java:250-275 | with an owner recorded, the victim's entry is evicted, the frame locked and a save queued; with none nothing changes (the kernel then throws) |
| Kernel.SO.QueueLoad | src/software/SO.java:282-303 | the frame is bound to the page, a load is queued and the process is BLOCKED; a running process is blocked through the scheduler with its pc and registers saved from the CPU, any other keeps them |
| Kernel.SO.ServeWithVictim | src/software/SO.java:243-303 | with every frame busy, an occupied unlocked frame is evicted and reused for the page; false iff there is no such frame or owner, and then nothing changes; no table but the victim's changes, and the context is saved only when the running process is blocked |
| Kernel.SO.ServeFault | src/software/SO.java:240-303 | a free frame when there is one, else a victim; then the load is queued and the process blocked with its context saved; no table but the victim's changes, and a failure changes nothing |
| Kernel.SO.HandlePageFault | src/software/SO.java:231-308 | a present page changes nothing (tables, context, queues, frames); a missing one ends with a locked frame owned by the page, its LOAD last in the queue and the process BLOCKED with its context saved when running; false only when every frame was busy, and then nothing changes |
| Kernel.SO.ServePageFault | src/software/SO.java:171-175 | a missing page is reported as a page fault after its load was queued and the process blocked, or as an address error with nothing changed |
| Kernel.SO.TraduzEndereco | src/software/SO.java:153-198 | returns Translate of the old table, except that an unserved fault is an error; a reported fault follows a queued load of that page and saves the running context; every other outcome leaves queues, frames, scheduler, process state and context and other tables unchanged, and a refusal before the lookup leaves the table too; a present page gets its access time and, on a write, its modified flag |
| Kernel.SO.CarregaPrograma | src/software/SO.java:311-317 | page 0 of the program lands in page 0's frame |
| Kernel.SO.NewProcess | src/software/SO.java:384-426 | -1 and no change for an unknown program; the pid is consumed otherwise; -1 when no frame is free; on success the new process is in the table, READY at the tail of the queue, with page 0 loaded |
| Kernel.SO.Admit | src/software/SO.java:411-417 | page 0 is loaded, the process enters the table and becomes READY at the tail |
| Kernel.SO.Rm | src/software/SO.java:428-455 | true iff the pid exists; it then leaves the scheduler and table, is TERMINATED and its frames are freed |
| Kernel.SO.Exec | src/software/SO.java:532-560 | a NEW or READY process joins the ready queue; otherwise no change |
| DiskCallbacks.DiskCallback.constructor | src/software/DiskCallback.java:14-16 | keeps the kernel it reports to |
| DiskCallbacks.DiskCallback.PageInComplete | src/software/DiskCallback.java:19-42 | the frame holds the program page; throws iff the frame lies outside memory, the int table is null or the page is outside it; otherwise the int table records the frame and the process is READY at the tail |
| DiskCallbacks.DiskCallback.PageOutComplete | src/software/DiskCallback.java:52-69 | slot -1: the victim is terminated, leaves the table and the queues, and the next ready process runs; any other slot changes nothing |
| SysCalls.SysCallHandling.constructor | src/software/SysCallHandling.java:7-9 | keeps the kernel it serves |
| SysCalls.SysCallHandling.Stop | src/software/SysCallHandling.java:11-23 | the running process is TERMINATED, leaves the queues, has exactly its resident frames freed and unowned (locks unchanged) and its table dropped, and the head of the ready queue runs with its pc and registers loaded into the CPU; nothing running changes nothing |
| SysCalls.SysCallHandling.Output | src/software/SysCallHandling.java:33-44 | shows the word's `p` iff the address translates to a position inside memory; a successful translation leaves frames, disk queue, scheduler and the process's state and context alone; a page fault either queues the page's LOAD last and blocks the process or changes nothing |
| SysCalls.SysCallHandling.Handle | src/software/SysCallHandling.java:25-48 | for reg[8] == 2 with a running process, what `Output` states for reg[9]: shown iff the address translates inside memory; a successful translation leaves frames, queues, scheduler and the process's state and context alone; a page fault either queued the LOAD last and blocked the process or changed nothing. Any other call, or no running process, shows nothing and leaves the queues, the frame table, every owner's table and the running process's state, pc, table and registers unchanged |

## Left out

- Threads, locks, sleeps and executors are left out: the disk worker's loop, the scheduler's
  automatic mode and `wakeUp`, and the locks around kernel methods. Each call runs to its end.
- The interrupt hand-off at the end of `CPU.step` (CPU.java:326-343) is left out. The handler is
  another class (`InterruptHandling`), outside this model. `DispatchClears` states what the step
  itself does there.
- `IODevice`, `Shell`, `Main`, `Sistema`, `Hw`, `ProcessManager`, `InterruptHandling` and the
  demo and test programs are outside the core.
- StateLog.Log: a process name is never null in the model (`PCB.nome` is a string), so the
  "desconhecido" that StateLogger.java:41 prints for a null name is not modelled.
- Process.PCB.constructor: PCB.java:42-58 allocates the table as `new int[numPages]`, while
  SO.java:130, DiskDevice and StateLogger use a table of `PageTableEntry`. The model keeps both:
  the int table of zeros, and an entry table of `numPages` not-loaded entries, which is what the
  kernel's revision needs.
- Console output and log-file writing are left out. `StateLog.Log` returns the line it would
  append. `SysCalls.SysCallHandling.Handle` returns the value it would print.
- Null words inside program images are not modelled: images are sequences of words.
- `getBlockedProcesses` does not exist in `SO.java`. The call at DiskCallback.java:41 therefore
  has no model, and `PageInComplete` ends after `addToReady`.
- `SysCallHandling.java:39` calls a two-argument `traduzEndereco`, which `SO.java` does not
  declare. It is modelled as the three-argument one with `isWrite` false.
- `Scheduler.addToReady(pcb, reason)` as called from SO.java:417 and SO.java:553, and
  `scheduler.blockRunningProcess("page_fault")` at SO.java:298, pass a reason that
  `Scheduler.addToReady` (Scheduler.java:30) and `blockRunningProcess` (Scheduler.java:88) do not
  accept. They are modelled by `AddToReady(pcb)` and `BlockRunningProcess()`. The reason only
  goes to the log.
- MemoryManager setters and `showStatus`, and SO's `dump`, `frames`, `dumpM`, `ps`, `execAll`,
  `trace`, `provideInput` and `logStateChange`, only print or forward. They are left out.
- `DiskDevice.loadProgramPage` (DiskDevice.java:129-135) is covered by
  `Kernel.SO.CarregaPaginaFromDisk`, which it calls.
- The frame table that `SO` calls (`allocateFrame`, `selectVictim`, `getFrameOwner`, `lockFrame`,
  `unlockFrame`, `assignFrame`, `deallocateFrame`) is not part of `MemoryManager.java`.
  `FrameAllocator.FrameTable` specifies it by what the kernel relies on.
- Cpu.CPU.Step: the translation (`traduzEndereco`) and the system-call outcome are parameters,
  because the kernel's side effects are modelled in `Kernel.SO.TraduzEndereco` and `SysCalls`.
- Kernel.DiskDevice.ProcessOperation: the kernel is a parameter rather than a field.
- The 32-bit wrap-around of `pc`, `instructionCount`, `nextPid`, `nextDiskAddress` and
  `frame * tamPg` is not modelled. Those values stay far below 2^31 in any run the simulator
  can hold in memory. Register arithmetic does wrap (`Words.Wrap32`).
- SwapDisk.Disk.RequestPageIn: the page it reads is never handed on, so the contract states only
  the notification.
- DiskCallbacks.DiskCallback.PageInComplete requires the process's page size to equal the
  memory's. The image installer documents this demand (PCB.java:60-65).
- Paging.PageImage and Process.ProgramPage: their contracts state only length and sign bounds. The content is stated by the lemmas beside them.

## Findings

| source | as written | input that shows it | evidently intended | confidence | as-written member | corrected member |
|---|---|---|---|---|---|---|
| src/hardware/Word.java:9-14 | each constructor parameter is assigned to itself, so a new word keeps a null opcode and zero fields | `new Word(LDI, 1, -1, 5)` has a null `opc`, which `isValidInstruction` refuses | the fields take the arguments | high, not executed | Words.WordAsWritten, Cpu.AsWrittenWordsNeverExecute | Words.MakeWord |
| src/software/SO.java:161-187 | page and offset use Java's truncating `/` and `%`, so a small negative logical address yields page 0 and a negative offset | address -1, 8-word pages, page 0 in frame 1: physical address 7, inside frame 0 | a negative logical address is refused | high, not executed | Paging.TranslateAsWritten, Paging.NegativeAddressLeavesTheFrame | Paging.Translate, Kernel.SO.TraduzEndereco |
| src/software/SO.java:327-340 | when the page lies wholly past the end of the image, the word count copied is negative and the zero-fill loop starts below the frame | a 20-word image, 8-word pages, page 5 into frame 3 of 32 words: position 4 (frame 0) is zeroed | the frame alone receives the page, padded with zeros | high, not executed | Paging.CarregaPaginaAsWritten, Paging.AsWrittenLoadClobbersAnotherFrame | Kernel.SO.CarregaPagina |
