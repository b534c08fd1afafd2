// The kernel (SO) and its paging disk device: address translation with demand paging, page-fault
// handling with eviction, process creation and removal, and the disk worker's operations. Each
// method is one atomic step; the kernel's lock and the device's worker thread are not modelled.

module Kernel {
  import opened Words
  import opened PhysicalMemory
  import opened PageTable
  import opened Process
  import opened FrameAllocator
  import opened Cpu
  import opened Scheduling
  import opened Paging

  datatype DiskOpType = SAVE_PAGE | LOAD_PAGE

  /** One queued disk operation: the frame is the source of a save and the target of a load. */
  datatype DiskOperation = DiskOperation(opType: DiskOpType, process: PCB, pageNumber: int, frameNumber: int, diskAddress: int)

  /** `entry` with its page marked absent from memory. */
  function Evicted(entry: PageTableEntry): (e: PageTableEntry)
    ensures !e.valid && e.frameNumber == -1 && e.diskAddress == entry.diskAddress && e.modified == entry.modified
  {
    entry.(valid := false, frameNumber := -1)
  }

  class DiskDevice {
    var queue: seq<DiskOperation>
    /** Disk address to the saved words of a page. */
    var storage: map<int, seq<Word>>
    var nextDiskAddress: int
    const mem: Memory

    ghost predicate Valid()
      reads this
    {
      mem.Valid() && nextDiskAddress >= 0 &&
      forall a :: a in storage ==> 0 <= a < nextDiskAddress && |storage[a]| == mem.tamPg
    }

    /** An idle device with an empty store. */
    constructor (mem: Memory)
      requires mem.Valid()
      ensures Valid() && this.mem == mem
      ensures queue == [] && storage == map[] && nextDiskAddress == 0
    {
      this.mem := mem;
      queue := [];
      storage := map[];
      nextDiskAddress := 0;
    }

    /** Appends to the FIFO of pending operations. */
    method AddOperation(operation: DiskOperation)
      modifies this`queue
      ensures queue == old(queue) + [operation]
    {
      queue := queue + [operation];
    }

    /** Copies the frame's words to a new disk address, which is returned; a frame outside memory
        throws before anything is stored. */
    method SavePage(process: PCB, pageNumber: int, frameNumber: int) returns (r: Outcome<int>)
      requires Valid()
      modifies this`storage, this`nextDiskAddress
      ensures Valid()
      ensures var base := frameNumber * mem.tamPg;
        r.Returned? <==> 0 <= base && base + mem.tamPg <= mem.tamMem
      ensures r.Returned? ==>
        r.value == old(nextDiskAddress) && nextDiskAddress == old(nextDiskAddress) + 1 &&
        r.value !in old(storage) && |storage| == |old(storage)| + 1 &&
        storage == old(storage)[r.value := mem.pos[frameNumber * mem.tamPg .. frameNumber * mem.tamPg + mem.tamPg]]
      ensures r.Threw? ==> storage == old(storage) && nextDiskAddress == old(nextDiskAddress)
    {
      var pageContent := mem.ReadFrame(frameNumber);
      if pageContent.Threw? {
        return Threw;
      }
      var diskAddr := nextDiskAddress;
      nextDiskAddress := nextDiskAddress + 1;
      storage := storage[diskAddr := pageContent.value];
      return Returned(diskAddr);
    }

    /** Writes the words saved at a disk address into a frame; an unknown address writes nothing.
        A frame outside memory throws at its first bad address. */
    method LoadPage(diskAddress: int, frameNumber: int) returns (threw: bool)
      requires Valid()
      modifies mem.pos
      ensures diskAddress !in storage ==> !threw && mem.pos[..] == old(mem.pos[..])
      ensures diskAddress in storage ==>
        mem.pos[..] == WriteRange(old(mem.pos[..]), frameNumber * mem.tamPg, storage[diskAddress]) &&
        (threw <==> !(0 <= frameNumber * mem.tamPg && frameNumber * mem.tamPg + mem.tamPg <= mem.tamMem))
    {
      if diskAddress !in storage {
        return false;
      }
      threw := mem.WritePage(frameNumber * mem.tamPg, storage[diskAddress]);
    }

    function GetDiskStorageSize(): (n: nat)
      reads this
      ensures n == |storage|
    {
      |storage|
    }

    /** One operation, with every exception caught. A save stores the frame and records the new
        disk address in the page's entry, which becomes invalid without a frame. A load fills the
        frame from the disk when the entry has a disk address and from the program image
        otherwise, then maps the entry to the frame and lets the kernel unlock it. */
    method ProcessOperation(so: SO, operation: DiskOperation, now: int) returns (ok: bool)
      requires so.Valid() && so.disk == this
      modifies this`storage, this`nextDiskAddress, operation.process, mem.pos, so.ft
      ensures so.Valid()
      ensures operation.opType == SAVE_PAGE ==> mem.pos[..] == old(mem.pos[..]) && so.ft.locked == old(so.ft.locked)
      ensures operation.opType == SAVE_PAGE && ok ==>
        var page := operation.pageNumber;
        old(operation.process.pageTable).Some? && 0 <= page < |old(operation.process.pageTable).value| &&
        0 <= operation.frameNumber * mem.tamPg && operation.frameNumber * mem.tamPg + mem.tamPg <= mem.tamMem &&
        storage == old(storage)[old(nextDiskAddress) := old(mem.pos[..])[operation.frameNumber * mem.tamPg .. operation.frameNumber * mem.tamPg + mem.tamPg]] &&
        operation.process.pageTable == Some(old(operation.process.pageTable).value[page :=
          Evicted(old(operation.process.pageTable).value[page]).(diskAddress := old(nextDiskAddress))])
      ensures operation.opType == LOAD_PAGE ==> storage == old(storage) && nextDiskAddress == old(nextDiskAddress)
      ensures operation.opType == LOAD_PAGE && ok ==>
        old(operation.process.pageTable).Some? && 0 <= operation.pageNumber < |old(operation.process.pageTable).value|
      ensures (operation.opType == LOAD_PAGE && ok && old(operation.process.pageTable).Some? &&
        0 <= operation.pageNumber < |old(operation.process.pageTable).value|) ==>
        var page := operation.pageNumber;
        var frame := operation.frameNumber;
        var entry := old(operation.process.pageTable).value[page];
        operation.process.pageTable == Some(old(operation.process.pageTable).value[page :=
          entry.(frameNumber := frame, valid := true, modified := false, lastAccessTime := now)])
      ensures (operation.opType == LOAD_PAGE && ok && old(operation.process.pageTable).Some? &&
        0 <= operation.pageNumber < |old(operation.process.pageTable).value|) ==>
        var page := operation.pageNumber;
        var frame := operation.frameNumber;
        var entry := old(operation.process.pageTable).value[page];
        (entry.diskAddress >= 0 && entry.diskAddress in storage ==>
          mem.pos[..] == WriteRange(old(mem.pos[..]), frame * mem.tamPg, storage[entry.diskAddress])) &&
        (entry.diskAddress < 0 && FindProgram(so.programs, operation.process.nome).Some? ==>
          mem.pos[..] == WriteRange(old(mem.pos[..]), frame * mem.tamPg,
            PageImage(FindProgram(so.programs, operation.process.nome).value.image, mem.tamPg, page))) &&
        so.ft.locked == (if 0 <= frame < so.ft.frameQuantity then old(so.ft.locked)[frame := false] else old(so.ft.locked))
    {
      var process := operation.process;
      var page := operation.pageNumber;
      if operation.opType == SAVE_PAGE {
        var diskAddr := SavePage(process, page, operation.frameNumber);
        if diskAddr.Threw? || process.pageTable.None? || page < 0 || page >= |process.pageTable.value| {
          return false;
        }
        var entry := process.pageTable.value[page];
        process.pageTable := Some(process.pageTable.value[page := Evicted(entry).(diskAddress := diskAddr.value)]);
        return true;
      }
      if process.pageTable.None? || page < 0 || page >= |process.pageTable.value| {
        return false;
      }
      var entry := process.pageTable.value[page];
      var threw;
      if entry.diskAddress >= 0 {
        threw := LoadPage(entry.diskAddress, operation.frameNumber);
      } else {
        threw := so.CarregaPaginaFromDisk(process, page, operation.frameNumber);
      }
      if threw {
        return false;
      }
      ghost var before := process.pageTable.value;
      var loaded := entry.(frameNumber := operation.frameNumber, valid := true, modified := false, lastAccessTime := now);
      process.pageTable := Some(process.pageTable.value[page := loaded]);
      ok := so.OnPageLoaded(process, page, operation.frameNumber, now);
      assert ok ==> process.pageTable == Some(before[page := loaded][page := loaded.(modified := false, lastAccessTime := now)]);
      assert loaded.(modified := false, lastAccessTime := now) == loaded;
      assert before[page := loaded][page := loaded] == before[page := loaded];
    }

    /** The worker's loop body: the oldest pending operation leaves the queue and is processed
        as ProcessOperation says, `ok` telling whether it completed; with nothing pending nothing
        changes. */
    method ProcessNext(so: SO, now: int) returns (done: Option<DiskOperation>, ok: bool)
      requires so.Valid() && so.disk == this
      modifies this, mem.pos, so.ft, if |queue| > 0 then {queue[0].process} else {}
      ensures so.Valid()
      ensures old(queue) == [] ==>
        done.None? && !ok && queue == [] && mem.pos[..] == old(mem.pos[..]) && storage == old(storage) &&
        nextDiskAddress == old(nextDiskAddress) && so.ft.locked == old(so.ft.locked) &&
        so.ft.occupied == old(so.ft.occupied) && so.ft.owners == old(so.ft.owners)
      ensures old(queue) != [] ==> done == Some(old(queue)[0]) && queue == old(queue)[1..]
      ensures old(queue) != [] && old(queue)[0].opType == SAVE_PAGE ==>
        mem.pos[..] == old(mem.pos[..]) && so.ft.locked == old(so.ft.locked)
      ensures old(queue) != [] && old(queue)[0].opType == SAVE_PAGE && ok ==>
        var op := old(queue)[0];
        var page := op.pageNumber;
        old(op.process.pageTable).Some? && 0 <= page < |old(op.process.pageTable).value| &&
        0 <= op.frameNumber * mem.tamPg && op.frameNumber * mem.tamPg + mem.tamPg <= mem.tamMem &&
        storage == old(storage)[old(nextDiskAddress) := old(mem.pos[..])[op.frameNumber * mem.tamPg .. op.frameNumber * mem.tamPg + mem.tamPg]] &&
        op.process.pageTable == Some(old(op.process.pageTable).value[page :=
          Evicted(old(op.process.pageTable).value[page]).(diskAddress := old(nextDiskAddress))])
      ensures old(queue) != [] && old(queue)[0].opType == LOAD_PAGE ==>
        storage == old(storage) && nextDiskAddress == old(nextDiskAddress)
      ensures old(queue) != [] && old(queue)[0].opType == LOAD_PAGE && ok ==>
        var op := old(queue)[0];
        var page := op.pageNumber;
        var frame := op.frameNumber;
        old(op.process.pageTable).Some? && 0 <= page < |old(op.process.pageTable).value| &&
        var entry := old(op.process.pageTable).value[page];
        op.process.pageTable == Some(old(op.process.pageTable).value[page :=
          entry.(frameNumber := frame, valid := true, modified := false, lastAccessTime := now)]) &&
        (entry.diskAddress >= 0 && entry.diskAddress in storage ==>
          mem.pos[..] == WriteRange(old(mem.pos[..]), frame * mem.tamPg, storage[entry.diskAddress])) &&
        (entry.diskAddress < 0 && FindProgram(so.programs, op.process.nome).Some? ==>
          mem.pos[..] == WriteRange(old(mem.pos[..]), frame * mem.tamPg,
            PageImage(FindProgram(so.programs, op.process.nome).value.image, mem.tamPg, page))) &&
        so.ft.locked == (if 0 <= frame < so.ft.frameQuantity then old(so.ft.locked)[frame := false] else old(so.ft.locked))
    {
      if queue == [] {
        return None, false;
      }
      var operation := queue[0];
      queue := queue[1..];
      ok := ProcessOperation(so, operation, now);
      return Some(operation), ok;
    }
  }

  class SO {
    const mem: Memory
    const tamPg: int
    /** The frame table the kernel's memory manager keeps. */
    const ft: FrameTable
    const scheduler: Scheduler
    const disk: DiskDevice
    var processTable: map<int, PCB>
    var nextPid: int
    const programs: seq<Program>

    ghost predicate Valid()
      reads this, ft, scheduler, disk
    {
      mem.Valid() && ft.Valid() && scheduler.Valid() && disk.Valid() &&
      tamPg == mem.tamPg && ft.frameQuantity == mem.nroFrames && disk.mem == mem && nextPid >= 1 &&
      forall pid :: pid in processTable ==> processTable[pid].HasRegisters() && processTable[pid].pid == pid && pid < nextPid
    }

    /** The processes the frame table records as owners: eviction may change their tables. */
    ghost function Owners(): set<PCB>
      reads ft
    {
      set f | f in ft.owners :: ft.owners[f].owner
    }

    /** A kernel over this memory and CPU with no process, every frame free and pid 1 next. */
    constructor (mem: Memory, cpu: CPU, programs: seq<Program>)
      requires mem.Valid() && cpu.Valid()
      ensures Valid() && this.mem == mem && this.programs == programs && scheduler.cpu == cpu
      ensures processTable == map[] && nextPid == 1
      ensures ft.occupied == seq(mem.nroFrames, _ => false) && ft.locked == seq(mem.nroFrames, _ => false)
      ensures scheduler.readyQueue == [] && scheduler.blockedQueue == [] && scheduler.running == null
      ensures disk.queue == [] && disk.storage == map[]
    {
      this.mem := mem;
      tamPg := mem.tamPg;
      ft := new FrameTable(mem.tamMem, mem.tamPg);
      scheduler := new Scheduler(cpu);
      disk := new DiskDevice(mem);
      processTable := map[];
      nextPid := 1;
      this.programs := programs;
    }

    function GetPCB(pid: int): (pcb: PCB?)
      reads this
      ensures pcb != null <==> pid in processTable
      ensures pcb != null ==> pcb == processTable[pid]
    {
      if pid in processTable then processTable[pid] else null
    }

    // ------------------------------------------------------------ memory

    /** gmAloca: records the page count and maps page 0 alone to a newly allocated frame, at
        clock reading `now`. Without a frame the result is false. A page table with no page 0
        throws after the frame was allocated, which is then never released. */
    method GmAloca(nroPalavras: int, pcb: PCB, now: int) returns (r: Outcome<bool>, ghost frame: int)
      requires Valid() && nroPalavras >= 0
      modifies ft, pcb`numPages, pcb`pageTable
      ensures Valid()
      ensures pcb.numPages == CeilDiv(nroPalavras, tamPg)
      ensures r == Returned(false) <==> forall g :: 0 <= g < ft.frameQuantity ==> old(ft.occupied[g] || ft.locked[g])
      ensures r == Returned(false) ==>
        ft.occupied == old(ft.occupied) && ft.owners == old(ft.owners) && pcb.pageTable == old(pcb.pageTable)
      ensures r != Returned(false) ==>
        0 <= frame < ft.frameQuantity && !old(ft.occupied[frame]) && !old(ft.locked[frame]) &&
        ft.occupied == old(ft.occupied)[frame := true] && ft.owners == old(ft.owners)[frame := FrameInfo(pcb, 0)]
      ensures r == Returned(true) ==>
        old(pcb.pageTable).Some? && |old(pcb.pageTable).value| > 0 &&
        pcb.pageTable == Some(old(pcb.pageTable).value[0 :=
          old(pcb.pageTable).value[0].(frameNumber := frame, valid := true, lastAccessTime := now)])
      ensures r.Threw? <==> r != Returned(false) && (old(pcb.pageTable).None? || |old(pcb.pageTable).value| == 0)
      ensures ft.locked == old(ft.locked)
    {
      pcb.numPages := CeilDiv(nroPalavras, tamPg);
      var f := ft.AllocateFrame(pcb, 0);
      frame := f;
      if f < 0 {
        return Returned(false), frame;
      }
      if pcb.pageTable.None? || |pcb.pageTable.value| == 0 {
        return Threw, frame;
      }
      var entry := pcb.pageTable.value[0];
      pcb.pageTable := Some(pcb.pageTable.value[0 := entry.(frameNumber := f, valid := true, lastAccessTime := now)]);
      return Returned(true), frame;
    }

    /** gmDesaloca: releases the frame of every valid entry that has one and drops the table;
        a process without a table is left as it is. */
    method GmDesaloca(pcb: PCB)
      requires Valid()
      modifies ft, pcb`pageTable
      ensures Valid()
      ensures pcb.pageTable == None
      ensures ft.locked == old(ft.locked)
      ensures old(pcb.pageTable).None? ==> ft.occupied == old(ft.occupied) && ft.owners == old(ft.owners)
      ensures old(pcb.pageTable).Some? ==>
        var held := ResidentFrames(old(pcb.pageTable).value);
        ft.owners == old(ft.owners) - held &&
        forall g :: 0 <= g < ft.frameQuantity ==> ft.occupied[g] == (old(ft.occupied[g]) && g !in held)
    {
      if pcb.pageTable.None? {
        return;
      }
      var table := pcb.pageTable.value;
      var i := 0;
      while i < |table|
        invariant 0 <= i <= |table| && ft.Valid()
        invariant ft.locked == old(ft.locked)
        invariant ft.owners == old(ft.owners) - ResidentFrames(table[..i])
        invariant forall g :: 0 <= g < ft.frameQuantity ==>
          ft.occupied[g] == (old(ft.occupied[g]) && g !in ResidentFrames(table[..i]))
      {
        ResidentFramesStep(table, i);
        if table[i].valid && table[i].frameNumber >= 0 {
          ft.DeallocateFrame(table[i].frameNumber);
        }
        i := i + 1;
      }
      assert table[..i] == table;
      pcb.pageTable := None;
    }

    /** The corrected carregaPagina: writes page `pageNumber` of the image into the frame, the
        copied image words first and then DATA(0,0,0) up to the page's end, never before the
        frame's base. A frame outside memory throws at its first bad address. */
    method CarregaPagina(pageNumber: int, frameNumber: int, image: seq<Word>) returns (threw: bool)
      requires Valid() && pageNumber >= 0
      modifies mem.pos
      ensures threw <==> !(0 <= frameNumber * tamPg && frameNumber * tamPg + tamPg <= mem.tamMem)
      ensures mem.pos[..] == WriteRange(old(mem.pos[..]), frameNumber * tamPg, PageImage(image, tamPg, pageNumber))
    {
      var page := PageImage(image, tamPg, pageNumber);
      ghost var mem0 := mem.pos[..];
      var endLogIni := pageNumber * tamPg;
      var endLogFim := Min(endLogIni + tamPg - 1, |image| - 1);
      var endFisBase := frameNumber * tamPg;
      var logAddr := endLogIni;
      while logAddr <= endLogFim
        invariant endLogIni <= logAddr <= endLogIni + tamPg
        invariant logAddr <= endLogFim + 1 || logAddr == endLogIni
        invariant 0 < logAddr - endLogIni ==> 0 <= endFisBase && endFisBase + (logAddr - endLogIni) <= mem.tamMem
        invariant mem.pos[..] == WriteRange(mem0, endFisBase, page[..logAddr - endLogIni])
      {
        var offset := logAddr - endLogIni;
        var physAddr := endFisBase + offset;
        assert page[offset] == image[logAddr];
        threw := mem.Write(physAddr, image[logAddr]);
        if threw {
          WriteRangeStop(mem0, endFisBase, page, offset);
          return;
        }
        WriteRangeStep(mem0, endFisBase, page, offset);
        logAddr := logAddr + 1;
      }
      var offset := if endLogFim - endLogIni + 1 > 0 then endLogFim - endLogIni + 1 else 0;
      assert offset == logAddr - endLogIni;
      while offset < tamPg
        invariant 0 <= offset <= tamPg
        invariant 0 < offset ==> 0 <= endFisBase && endFisBase + offset <= mem.tamMem
        invariant mem.pos[..] == WriteRange(mem0, endFisBase, page[..offset])
      {
        var physAddr := endFisBase + offset;
        assert page[offset] == ZeroWord;
        threw := mem.Write(physAddr, Word(DATA, 0, 0, 0));
        if threw {
          WriteRangeStop(mem0, endFisBase, page, offset);
          return;
        }
        WriteRangeStep(mem0, endFisBase, page, offset);
        offset := offset + 1;
      }
      assert page[..offset] == page;
      threw := false;
    }

    /** Loads a page of the program the process was created from; with no such program nothing
        is written. */
    method CarregaPaginaFromDisk(pcb: PCB, pageNumber: int, frameNumber: int) returns (threw: bool)
      requires Valid() && pageNumber >= 0
      modifies mem.pos
      ensures FindProgram(programs, pcb.nome).None? ==> !threw && mem.pos[..] == old(mem.pos[..])
      ensures FindProgram(programs, pcb.nome).Some? ==>
        (threw <==> !(0 <= frameNumber * tamPg && frameNumber * tamPg + tamPg <= mem.tamMem)) &&
        mem.pos[..] == WriteRange(old(mem.pos[..]), frameNumber * tamPg,
          PageImage(FindProgram(programs, pcb.nome).value.image, tamPg, pageNumber))
    {
      var programa := FindProgram(programs, pcb.nome);
      if programa.None? {
        return false;
      }
      threw := CarregaPagina(pageNumber, frameNumber, programa.value.image);
    }

    /** The disk device's notice that a load finished: the frame is unlocked and the entry marked
        unmodified at clock reading `now`. A missing table or page throws after the unlock. */
    method OnPageLoaded(pcb: PCB, pageNumber: int, frameNumber: int, now: int) returns (ok: bool)
      requires Valid()
      modifies ft, pcb`pageTable
      ensures Valid()
      ensures ft.occupied == old(ft.occupied) && ft.owners == old(ft.owners)
      ensures ft.locked == if 0 <= frameNumber < ft.frameQuantity then old(ft.locked)[frameNumber := false] else old(ft.locked)
      ensures ok <==> old(pcb.pageTable).Some? && 0 <= pageNumber < |old(pcb.pageTable).value|
      ensures ok ==> pcb.pageTable == Some(old(pcb.pageTable).value[pageNumber :=
        old(pcb.pageTable).value[pageNumber].(modified := false, lastAccessTime := now)])
      ensures !ok ==> pcb.pageTable == old(pcb.pageTable)
    {
      ft.UnlockFrame(frameNumber);
      if pcb.pageTable.None? || pageNumber < 0 || pageNumber >= |pcb.pageTable.value| {
        return false;
      }
      var entry := pcb.pageTable.value[pageNumber];
      pcb.pageTable := Some(pcb.pageTable.value[pageNumber := entry.(modified := false, lastAccessTime := now)]);
      return true;
    }

    // ------------------------------------------------------------ paging

    /** The victim half of handlePageFault for frame `f`: the owner recorded for the frame has
        its entry for the page evicted (invalid, no frame), the frame is locked and a SAVE_PAGE of
        it to the entry's disk address is queued. No recorded owner, or an owner whose table
        lacks the page, throws and changes nothing. */
    method EvictVictim(f: int) returns (ok: bool, ghost victim: Option<FrameInfo>)
      requires Valid() && 0 <= f < ft.frameQuantity
      modifies ft, disk`queue, Owners()`pageTable
      ensures Valid()
      ensures ok <==> victim.Some?
      ensures ft.occupied == old(ft.occupied) && ft.owners == old(ft.owners)
      ensures !ok ==>
        disk.queue == old(disk.queue) && ft.locked == old(ft.locked) &&
        forall p :: p in old(Owners()) ==> p.pageTable == old(p.pageTable)
      ensures ok ==>
        f in old(ft.owners) && victim.value == old(ft.owners[f]) && ft.locked == old(ft.locked)[f := true] &&
        old(victim.value.owner.pageTable).Some? &&
        0 <= victim.value.pageNumber < |old(victim.value.owner.pageTable).value| &&
        disk.queue == old(disk.queue) + [DiskOperation(SAVE_PAGE, victim.value.owner, victim.value.pageNumber, f,
          old(victim.value.owner.pageTable).value[victim.value.pageNumber].diskAddress)] &&
        victim.value.owner.pageTable == Some(old(victim.value.owner.pageTable).value[victim.value.pageNumber :=
          Evicted(old(victim.value.owner.pageTable).value[victim.value.pageNumber])]) &&
        forall p :: p in old(Owners()) && p != victim.value.owner ==> p.pageTable == old(p.pageTable)
    {
      victim := None;
      var info := ft.GetFrameOwner(f);
      if info.None? {
        return false, victim;
      }
      var victimPCB := info.value.owner;
      var victimPage := info.value.pageNumber;
      if victimPCB.pageTable.None? || victimPage < 0 || victimPage >= |victimPCB.pageTable.value| {
        return false, victim;
      }
      assert victimPCB in Owners();
      var victimEntry := victimPCB.pageTable.value[victimPage];
      victimPCB.pageTable := Some(victimPCB.pageTable.value[victimPage := Evicted(victimEntry)]);
      ft.LockFrame(f);
      disk.AddOperation(DiskOperation(SAVE_PAGE, victimPCB, victimPage, f, victimEntry.diskAddress));
      return true, info;
    }

    /** The common end of handlePageFault for a locked frame `f`: the frame is bound to the page,
        a LOAD_PAGE into it from `diskAddress` is queued, and the process is blocked through the
        scheduler when it is the running one, or marked BLOCKED otherwise. */
    method QueueLoad(pcb: PCB, pageNumber: int, f: int, diskAddress: int)
      requires Valid() && pcb.HasRegisters() && 0 <= f < ft.frameQuantity
      modifies ft, disk`queue, scheduler`blockedQueue, scheduler`running, pcb`state, pcb`pc, pcb.reg
      ensures Valid()
      ensures ft.occupied == old(ft.occupied)[f := true] && ft.locked == old(ft.locked) &&
        ft.owners == old(ft.owners)[f := FrameInfo(pcb, pageNumber)]
      ensures disk.queue == old(disk.queue) + [DiskOperation(LOAD_PAGE, pcb, pageNumber, f, diskAddress)]
      ensures pcb.state == BLOCKED
      ensures old(scheduler.running) == pcb ==>
        scheduler.running == null && scheduler.blockedQueue == old(scheduler.blockedQueue) + [pcb]
      ensures old(scheduler.running) != pcb ==>
        scheduler.running == old(scheduler.running) && scheduler.blockedQueue == old(scheduler.blockedQueue)
      ensures old(scheduler.running) == pcb ==> pcb.pc == scheduler.cpu.pc && pcb.reg[..] == scheduler.cpu.reg[..]
      ensures old(scheduler.running) != pcb ==> pcb.pc == old(pcb.pc) && pcb.reg[..] == old(pcb.reg[..])
    {
      ft.AssignFrame(f, pcb, pageNumber);
      disk.AddOperation(DiskOperation(LOAD_PAGE, pcb, pageNumber, f, diskAddress));
      var runningNow := scheduler.GetRunning();
      if runningNow == pcb {
        scheduler.BlockRunningProcess();
      } else if pcb.state != BLOCKED {
        pcb.state := BLOCKED;
      }
    }

    /** The victim path of handlePageFault, taken when every frame is occupied or locked: an
        occupied unlocked frame is chosen, its page evicted and saved (EvictVictim), and the page
        queued for loading into it (QueueLoad). Without such a frame, or when the eviction
        throws, nothing changes. */
    method ServeWithVictim(pcb: PCB, pageNumber: int, diskAddress: int)
      returns (ok: bool, ghost frame: int, ghost victim: Option<FrameInfo>)
      requires Valid() && pcb.HasRegisters()
      requires forall g :: 0 <= g < ft.frameQuantity ==> ft.occupied[g] || ft.locked[g]
      modifies ft, disk`queue, scheduler`blockedQueue, scheduler`running, pcb`state, pcb`pc, pcb.reg,
        Owners()`pageTable
      ensures Valid()
      ensures ok <==> victim.Some?
      ensures !ok ==>
        disk.queue == old(disk.queue) && ft.occupied == old(ft.occupied) && ft.locked == old(ft.locked) &&
        ft.owners == old(ft.owners) && scheduler.running == old(scheduler.running) &&
        scheduler.blockedQueue == old(scheduler.blockedQueue) && pcb.state == old(pcb.state) &&
        pcb.pageTable == old(pcb.pageTable)
      ensures forall p :: p in old(Owners()) && (victim.None? || p != victim.value.owner) ==> p.pageTable == old(p.pageTable)
      ensures ok && old(scheduler.running) == pcb ==> pcb.pc == scheduler.cpu.pc && pcb.reg[..] == scheduler.cpu.reg[..]
      ensures !(ok && old(scheduler.running) == pcb) ==> pcb.pc == old(pcb.pc) && pcb.reg[..] == old(pcb.reg[..])
      ensures ok ==>
        0 <= frame < ft.frameQuantity && !old(ft.locked[frame]) && old(ft.occupied[frame]) &&
        ft.occupied == old(ft.occupied) && ft.locked == old(ft.locked)[frame := true] &&
        ft.owners == old(ft.owners)[frame := FrameInfo(pcb, pageNumber)] &&
        pcb.state == BLOCKED &&
        (old(scheduler.running) == pcb ==>
          scheduler.running == null && scheduler.blockedQueue == old(scheduler.blockedQueue) + [pcb]) &&
        (old(scheduler.running) != pcb ==>
          scheduler.running == old(scheduler.running) && scheduler.blockedQueue == old(scheduler.blockedQueue))
      ensures ok ==>
        frame in old(ft.owners) && victim.value == old(ft.owners[frame]) &&
        old(victim.value.owner.pageTable).Some? &&
        0 <= victim.value.pageNumber < |old(victim.value.owner.pageTable).value| &&
        disk.queue == old(disk.queue) + [
          DiskOperation(SAVE_PAGE, victim.value.owner, victim.value.pageNumber, frame,
            old(victim.value.owner.pageTable).value[victim.value.pageNumber].diskAddress),
          DiskOperation(LOAD_PAGE, pcb, pageNumber, frame, diskAddress)] &&
        victim.value.owner.pageTable == Some(old(victim.value.owner.pageTable).value[victim.value.pageNumber :=
          Evicted(old(victim.value.owner.pageTable).value[victim.value.pageNumber])]) &&
        (victim.value.owner != pcb ==> pcb.pageTable == old(pcb.pageTable))
    {
      frame := -1;
      victim := None;
      var f := ft.SelectVictim();
      if f < 0 {
        return false, frame, victim;
      }
      ok, victim := EvictVictim(f);
      if !ok {
        return false, frame, victim;
      }
      assert ft.occupied[f];
      QueueLoad(pcb, pageNumber, f, diskAddress);
      frame := f;
    }

    /** handlePageFault for a page that is not present: a free frame when there is one (locked,
        bound to the page and queued for loading), the victim path otherwise. `frame` and
        `victim` name the choice made. */
    method ServeFault(pcb: PCB, pageNumber: int) returns (ok: bool, ghost frame: int, ghost victim: Option<FrameInfo>)
      requires Valid() && pcb.HasRegisters()
      requires pcb.pageTable.Some? && 0 <= pageNumber < |pcb.pageTable.value| && !pcb.pageTable.value[pageNumber].valid
      modifies ft, disk`queue, scheduler`blockedQueue, scheduler`running, pcb`state, pcb`pc, pcb.reg,
        Owners()`pageTable
      ensures Valid()
      ensures !ok ==>
        disk.queue == old(disk.queue) && ft.occupied == old(ft.occupied) && ft.locked == old(ft.locked) &&
        ft.owners == old(ft.owners) && scheduler.running == old(scheduler.running) &&
        scheduler.blockedQueue == old(scheduler.blockedQueue) && pcb.state == old(pcb.state) &&
        pcb.pageTable == old(pcb.pageTable) &&
        forall g :: 0 <= g < ft.frameQuantity ==> old(ft.occupied[g] || ft.locked[g])
      ensures !ok ==> victim.None?
      ensures forall p :: p in old(Owners()) && (victim.None? || p != victim.value.owner) ==> p.pageTable == old(p.pageTable)
      ensures ok && old(scheduler.running) == pcb ==> pcb.pc == scheduler.cpu.pc && pcb.reg[..] == scheduler.cpu.reg[..]
      ensures !(ok && old(scheduler.running) == pcb) ==> pcb.pc == old(pcb.pc) && pcb.reg[..] == old(pcb.reg[..])
      ensures ok ==>
        0 <= frame < ft.frameQuantity && !old(ft.locked[frame]) &&
        ft.occupied == old(ft.occupied)[frame := true] && ft.locked == old(ft.locked)[frame := true] &&
        ft.owners == old(ft.owners)[frame := FrameInfo(pcb, pageNumber)] &&
        pcb.state == BLOCKED &&
        (old(scheduler.running) == pcb ==>
          scheduler.running == null && scheduler.blockedQueue == old(scheduler.blockedQueue) + [pcb]) &&
        (old(scheduler.running) != pcb ==>
          scheduler.running == old(scheduler.running) && scheduler.blockedQueue == old(scheduler.blockedQueue))
      ensures ok && victim.None? ==>
        !old(ft.occupied[frame]) && pcb.pageTable == old(pcb.pageTable) &&
        disk.queue == old(disk.queue) +
          [DiskOperation(LOAD_PAGE, pcb, pageNumber, frame, old(pcb.pageTable).value[pageNumber].diskAddress)]
      ensures victim.Some? ==>
        ok && (forall g :: 0 <= g < ft.frameQuantity ==> old(ft.occupied[g] || ft.locked[g])) &&
        old(ft.occupied[frame]) && frame in old(ft.owners) && victim.value == old(ft.owners[frame]) &&
        old(victim.value.owner.pageTable).Some? &&
        0 <= victim.value.pageNumber < |old(victim.value.owner.pageTable).value| &&
        disk.queue == old(disk.queue) + [
          DiskOperation(SAVE_PAGE, victim.value.owner, victim.value.pageNumber, frame,
            old(victim.value.owner.pageTable).value[victim.value.pageNumber].diskAddress),
          DiskOperation(LOAD_PAGE, pcb, pageNumber, frame, old(pcb.pageTable).value[pageNumber].diskAddress)] &&
        victim.value.owner.pageTable == Some(old(victim.value.owner.pageTable).value[victim.value.pageNumber :=
          Evicted(old(victim.value.owner.pageTable).value[victim.value.pageNumber])]) &&
        (victim.value.owner != pcb ==> pcb.pageTable == old(pcb.pageTable))
    {
      frame := -1;
      victim := None;
      var diskAddress := pcb.pageTable.value[pageNumber].diskAddress;
      var f := ft.AllocateFrame(pcb, pageNumber);
      if f < 0 {
        assert Owners() == old(Owners());
        ok, frame, victim := ServeWithVictim(pcb, pageNumber, diskAddress);
        return;
      }
      ft.LockFrame(f);
      QueueLoad(pcb, pageNumber, f, diskAddress);
      frame := f;
      ok := true;
    }

    /** handlePageFault: a present page changes nothing; a missing one is served as ServeFault
        says. */
    method HandlePageFault(pcb: PCB, pageNumber: int) returns (ok: bool, ghost frame: int, ghost victim: Option<FrameInfo>)
      requires Valid() && pcb.HasRegisters()
      requires pcb.pageTable.Some? && 0 <= pageNumber < |pcb.pageTable.value|
      modifies ft, disk`queue, scheduler`blockedQueue, scheduler`running, pcb`state, pcb`pc, pcb.reg,
        Owners()`pageTable
      ensures Valid()
      ensures old(pcb.pageTable).value[pageNumber].valid ==>
        ok && victim.None? && disk.queue == old(disk.queue) && ft.occupied == old(ft.occupied) &&
        ft.locked == old(ft.locked) && ft.owners == old(ft.owners) && scheduler.running == old(scheduler.running) &&
        scheduler.blockedQueue == old(scheduler.blockedQueue) && pcb.state == old(pcb.state) &&
        pcb.pageTable == old(pcb.pageTable)
      ensures !ok ==>
        disk.queue == old(disk.queue) && ft.occupied == old(ft.occupied) && ft.owners == old(ft.owners) &&
        ft.locked == old(ft.locked) && scheduler.running == old(scheduler.running) &&
        scheduler.blockedQueue == old(scheduler.blockedQueue) &&
        pcb.state == old(pcb.state) && pcb.pageTable == old(pcb.pageTable) &&
        forall g :: 0 <= g < ft.frameQuantity ==> old(ft.occupied[g] || ft.locked[g])
      ensures !ok ==> victim.None?
      ensures forall p :: p in old(Owners()) && (victim.None? || p != victim.value.owner) ==> p.pageTable == old(p.pageTable)
      ensures ok && old(scheduler.running) == pcb && !old(pcb.pageTable).value[pageNumber].valid ==>
        pcb.pc == scheduler.cpu.pc && pcb.reg[..] == scheduler.cpu.reg[..]
      ensures !(ok && old(scheduler.running) == pcb && !old(pcb.pageTable).value[pageNumber].valid) ==>
        pcb.pc == old(pcb.pc) && pcb.reg[..] == old(pcb.reg[..])
      ensures ok && !old(pcb.pageTable).value[pageNumber].valid ==>
        0 <= frame < ft.frameQuantity && ft.locked == old(ft.locked)[frame := true] &&
        ft.owners == old(ft.owners)[frame := FrameInfo(pcb, pageNumber)] && pcb.state == BLOCKED &&
        |disk.queue| > |old(disk.queue)| &&
        disk.queue[|disk.queue| - 1] ==
          DiskOperation(LOAD_PAGE, pcb, pageNumber, frame, old(pcb.pageTable).value[pageNumber].diskAddress)
    {
      frame := -1;
      victim := None;
      if pcb.pageTable.value[pageNumber].valid {
        return true, frame, victim;
      }
      ok, frame, victim := ServeFault(pcb, pageNumber);
    }

    /** The page-fault branch of traduzEndereco for a missing page: handlePageFault, reported as
        a page fault when the load was queued and as an address error when every frame was busy,
        in which case nothing changed. */
    method ServePageFault(pcb: PCB, pagina: int) returns (t: Translation)
      requires Valid() && pcb.HasRegisters()
      requires pcb.pageTable.Some? && 0 <= pagina < |pcb.pageTable.value| && !pcb.pageTable.value[pagina].valid
      modifies ft, disk`queue, scheduler`blockedQueue, scheduler`running, pcb`state, pcb`pc, pcb.reg,
        Owners()`pageTable
      ensures Valid()
      ensures t.PageFault? || t.AddressError?
      ensures t.PageFault? ==>
        pcb.state == BLOCKED && |disk.queue| > |old(disk.queue)| &&
        disk.queue[|disk.queue| - 1].opType == LOAD_PAGE && disk.queue[|disk.queue| - 1].process == pcb &&
        disk.queue[|disk.queue| - 1].pageNumber == pagina &&
        disk.queue[|disk.queue| - 1].diskAddress == old(pcb.pageTable).value[pagina].diskAddress
      ensures t.AddressError? ==>
        disk.queue == old(disk.queue) && ft.occupied == old(ft.occupied) && ft.owners == old(ft.owners) &&
        ft.locked == old(ft.locked) && scheduler.running == old(scheduler.running) &&
        scheduler.blockedQueue == old(scheduler.blockedQueue) && pcb.state == old(pcb.state) &&
        pcb.pageTable == old(pcb.pageTable) &&
        (forall g :: 0 <= g < ft.frameQuantity ==> old(ft.occupied[g] || ft.locked[g])) &&
        forall p :: p in old(Owners()) ==> p.pageTable == old(p.pageTable)
      ensures t.PageFault? && old(scheduler.running) == pcb ==>
        pcb.pc == scheduler.cpu.pc && pcb.reg[..] == scheduler.cpu.reg[..]
      ensures !(t.PageFault? && old(scheduler.running) == pcb) ==> pcb.pc == old(pcb.pc) && pcb.reg[..] == old(pcb.reg[..])
    {
      var handled;
      ghost var frame, victim;
      handled, frame, victim := HandlePageFault(pcb, pagina);
      t := if handled then PageFault else AddressError;
    }

    /** The corrected traduzEndereco at clock reading `now`. The result is Translate of the table
        as it was, except that a page fault the handler could not serve surfaces as an error. A
        present page has its access time set and, on a write, its modified flag raised, even when
        it then turns out to have no frame. A page fault is reported only after the page's load
        was queued and the process blocked. */
    method TraduzEndereco(pcb: PCB, endLogico: int, isWrite: bool, now: int) returns (t: Translation)
      requires Valid() && pcb.HasRegisters()
      modifies ft, disk`queue, scheduler`blockedQueue, scheduler`running, pcb`state, pcb`pc, pcb`pageTable, pcb.reg,
        Owners()`pageTable
      ensures Valid()
      ensures !Translate(old(pcb.pageTable), tamPg, endLogico).PageFault? ==> t == Translate(old(pcb.pageTable), tamPg, endLogico)
      ensures Translate(old(pcb.pageTable), tamPg, endLogico).PageFault? ==> t.PageFault? || t.AddressError?
      ensures t.PageFault? ==>
        pcb.state == BLOCKED && |disk.queue| > |old(disk.queue)| &&
        disk.queue[|disk.queue| - 1] == DiskOperation(LOAD_PAGE, pcb, endLogico / tamPg, disk.queue[|disk.queue| - 1].frameNumber,
          old(pcb.pageTable).value[endLogico / tamPg].diskAddress)
      ensures Translate(old(pcb.pageTable), tamPg, endLogico).PageFault? && t.AddressError? ==>
        disk.queue == old(disk.queue) && ft.occupied == old(ft.occupied) && ft.owners == old(ft.owners) &&
        forall g :: 0 <= g < ft.frameQuantity ==> old(ft.occupied[g] || ft.locked[g])
      ensures (old(pcb.pageTable).Some? && 0 <= endLogico < |old(pcb.pageTable).value| * tamPg &&
               old(pcb.pageTable).value[endLogico / tamPg].valid) ==>
        var page := endLogico / tamPg;
        var entry := old(pcb.pageTable).value[page];
        pcb.pageTable == Some(old(pcb.pageTable).value[page :=
          entry.(lastAccessTime := now, modified := entry.modified || isWrite)]) &&
        disk.queue == old(disk.queue) && ft.occupied == old(ft.occupied) && ft.owners == old(ft.owners)
      ensures old(pcb.pageTable).None? || endLogico < 0 || endLogico / tamPg >= |old(pcb.pageTable).value| ==>
        pcb.pageTable == old(pcb.pageTable)
      ensures !Translate(old(pcb.pageTable), tamPg, endLogico).PageFault? ==>
        disk.queue == old(disk.queue) && ft.occupied == old(ft.occupied) && ft.owners == old(ft.owners) &&
        ft.locked == old(ft.locked) && scheduler.running == old(scheduler.running) &&
        scheduler.blockedQueue == old(scheduler.blockedQueue) && pcb.state == old(pcb.state)
      ensures !t.PageFault? ==> forall p :: p in old(Owners()) && p != pcb ==> p.pageTable == old(p.pageTable)
      ensures t.PageFault? && old(scheduler.running) == pcb ==>
        pcb.pc == scheduler.cpu.pc && pcb.reg[..] == scheduler.cpu.reg[..]
      ensures !(t.PageFault? && old(scheduler.running) == pcb) ==> pcb.pc == old(pcb.pc) && pcb.reg[..] == old(pcb.reg[..])
    {
      TranslateSpec(pcb.pageTable, tamPg, endLogico);
      if pcb.pageTable.None? || endLogico < 0 {
        return AddressError;
      }
      var pagina := endLogico / tamPg;
      var offset := endLogico % tamPg;
      if pagina >= |pcb.pageTable.value| {
        return AddressError;
      }
      var entry := pcb.pageTable.value[pagina];
      if !entry.valid {
        t := ServePageFault(pcb, pagina);
        return;
      }
      entry := entry.(lastAccessTime := now, modified := entry.modified || isWrite);
      pcb.pageTable := Some(pcb.pageTable.value[pagina := entry]);
      if entry.frameNumber < 0 {
        return AddressError;
      }
      return Physical(entry.frameNumber * tamPg + offset);
    }

    // ------------------------------------------------------------ processes

    /** carregaPrograma: loads page 0 of the program into the frame page 0 is mapped to. */
    method CarregaPrograma(programa: Program, pcb: PCB) returns (threw: bool)
      requires Valid() && pcb.pageTable.Some? && |pcb.pageTable.value| > 0
      modifies mem.pos
      ensures var f := pcb.pageTable.value[0].frameNumber;
        (threw <==> !(0 <= f * tamPg && f * tamPg + tamPg <= mem.tamMem)) &&
        mem.pos[..] == WriteRange(old(mem.pos[..]), f * tamPg, PageImage(programa.image, tamPg, 0))
    {
      threw := CarregaPagina(0, pcb.pageTable.value[0].frameNumber, programa.image);
    }

    /** newProcess at clock reading `now`: -1 for an unknown program or when no frame is free;
        otherwise a fresh PCB sized by computeRequiredWords under the next pid, page 0 mapped and
        loaded, every other page not loaded, entered in the process table and made READY at the
        tail of the ready queue. The pid is consumed once the program is found. A program
        needing no words has no page 0 and throws. */
    method NewProcess(nomeProg: string, now: int) returns (r: Outcome<int>)
      requires Valid()
      modifies this`processTable, this`nextPid, ft, mem.pos, scheduler`readyQueue
      ensures Valid()
      ensures FindProgram(programs, nomeProg).None? ==>
        r == Returned(-1) && processTable == old(processTable) && nextPid == old(nextPid) &&
        ft.occupied == old(ft.occupied) && mem.pos[..] == old(mem.pos[..]) && scheduler.readyQueue == old(scheduler.readyQueue)
      ensures FindProgram(programs, nomeProg).Some? ==> nextPid == old(nextPid) + 1
      ensures r.Threw? ==>
        FindProgram(programs, nomeProg).Some? && ComputeRequiredWords(FindProgram(programs, nomeProg).value.image) == 0
      ensures r == Returned(-1) && FindProgram(programs, nomeProg).Some? ==>
        (forall g :: 0 <= g < ft.frameQuantity ==> old(ft.occupied[g] || ft.locked[g])) &&
        ft.occupied == old(ft.occupied) && mem.pos[..] == old(mem.pos[..])
      ensures r.Threw? || r == Returned(-1) ==>
        processTable == old(processTable) && scheduler.readyQueue == old(scheduler.readyQueue)
      ensures r.Returned? && r.value != -1 ==>
        FindProgram(programs, nomeProg).Some? && r.value == old(nextPid) && r.value !in old(processTable) &&
        r.value in processTable && processTable == old(processTable)[r.value := processTable[r.value]]
      ensures r.Returned? && r.value != -1 && r.value in processTable && FindProgram(programs, nomeProg).Some? ==>
        var pcb := processTable[r.value];
        var image := FindProgram(programs, nomeProg).value.image;
        fresh(pcb) && pcb.pid == r.value && pcb.nome == nomeProg && pcb.state == READY &&
        scheduler.readyQueue == old(scheduler.readyQueue) + [pcb] &&
        pcb.pageTable.Some? && |pcb.pageTable.value| == CeilDiv(ComputeRequiredWords(image), tamPg) &&
        |pcb.pageTable.value| >= 1 && pcb.pageTable.value[0].valid &&
        (forall i :: 1 <= i < |pcb.pageTable.value| ==> pcb.pageTable.value[i] == NotLoadedEntry()) &&
        var f := pcb.pageTable.value[0].frameNumber;
        0 <= f < ft.frameQuantity && !old(ft.occupied[f]) && ft.occupied == old(ft.occupied)[f := true] &&
        mem.pos[..] == WriteRange(old(mem.pos[..]), f * tamPg, PageImage(image, tamPg, 0))
    {
      var programa := FindProgram(programs, nomeProg);
      if programa.None? {
        return Returned(-1);
      }
      var requiredWords := ComputeRequiredWords(programa.value.image);
      var pid := nextPid;
      nextPid := nextPid + 1;
      var pcb := new PCB(pid, nomeProg, requiredWords, tamPg);
      var aloca;
      ghost var frame;
      aloca, frame := GmAloca(requiredWords, pcb, now);
      if aloca.Threw? {
        return Threw;
      }
      if !aloca.value {
        return Returned(-1);
      }
      Admit(pid, pcb, programa.value);
      return Returned(pid);
    }

    /** The end of newProcess once page 0 has a frame: the page is loaded (it cannot miss memory,
        the frame being one of the table's), the process enters the table and becomes READY. */
    method Admit(pid: int, pcb: PCB, programa: Program)
      requires Valid() && pcb.HasRegisters() && pcb.pid == pid && pid !in processTable && pid < nextPid
      requires pcb.pageTable.Some? && |pcb.pageTable.value| > 0
      requires 0 <= pcb.pageTable.value[0].frameNumber < ft.frameQuantity
      modifies this`processTable, mem.pos, scheduler`readyQueue, pcb`state
      ensures Valid()
      ensures processTable == old(processTable)[pid := pcb]
      ensures pcb.state == READY && scheduler.readyQueue == old(scheduler.readyQueue) + [pcb]
      ensures mem.pos[..] ==
        WriteRange(old(mem.pos[..]), pcb.pageTable.value[0].frameNumber * tamPg, PageImage(programa.image, tamPg, 0))
    {
      FrameInsideMemory(pcb.pageTable.value[0].frameNumber, tamPg, mem.tamMem);
      var threw := CarregaPrograma(programa, pcb);
      assert !threw;
      processTable := processTable[pid := pcb];
      scheduler.AddToReady(pcb);
    }

    /** rm: false for an unknown pid, with no change. Otherwise the pid leaves the scheduler, the
        process becomes TERMINATED, the frames its valid entries hold are released, its table is
        dropped and it leaves the process table. */
    method Rm(pid: int) returns (removed: bool)
      requires Valid()
      modifies this`processTable, scheduler`readyQueue, scheduler`blockedQueue, scheduler`running, ft,
        if pid in processTable then {processTable[pid]} else {}
      ensures Valid()
      ensures removed <==> pid in old(processTable)
      ensures !removed ==>
        processTable == old(processTable) && scheduler.readyQueue == old(scheduler.readyQueue) &&
        scheduler.blockedQueue == old(scheduler.blockedQueue) && scheduler.running == old(scheduler.running) &&
        ft.occupied == old(ft.occupied) && ft.owners == old(ft.owners)
      ensures removed ==>
        var pcb := old(processTable[pid]);
        processTable == old(processTable) - {pid} && pcb.state == TERMINATED && pcb.pageTable == None &&
        scheduler.readyQueue == WithoutPid(old(scheduler.readyQueue), pid) &&
        scheduler.blockedQueue == WithoutPid(old(scheduler.blockedQueue), pid) &&
        scheduler.running == (if old(scheduler.running) != null && old(scheduler.running).pid == pid then null else old(scheduler.running)) &&
        !scheduler.Scheduled(pid) && ft.locked == old(ft.locked)
      ensures removed && old(processTable[pid].pageTable).Some? ==>
        var held := ResidentFrames(old(processTable[pid].pageTable).value);
        ft.owners == old(ft.owners) - held &&
        forall g :: 0 <= g < ft.frameQuantity ==> ft.occupied[g] == (old(ft.occupied[g]) && g !in held)
    {
      var pcb := GetPCB(pid);
      if pcb == null {
        return false;
      }
      scheduler.RemoveProcess(pid);
      pcb.state := TERMINATED;
      GmDesaloca(pcb);
      processTable := processTable - {pid};
      return true;
    }

    /** exec: a NEW or READY process in the table is appended to the ready queue (again, if it is
        queued already) and made READY; a missing, TERMINATED, BLOCKED or RUNNING one is left
        alone. */
    method Exec(pid: int)
      requires Valid()
      modifies scheduler`readyQueue, if pid in processTable then {processTable[pid]} else {}
      ensures Valid()
      ensures pid in processTable && (old(processTable[pid].state) == NEW || old(processTable[pid].state) == READY) ==>
        processTable[pid].state == READY && scheduler.readyQueue == old(scheduler.readyQueue) + [processTable[pid]]
      ensures !(pid in processTable && (old(processTable[pid].state) == NEW || old(processTable[pid].state) == READY)) ==>
        scheduler.readyQueue == old(scheduler.readyQueue) && (pid in processTable ==> processTable[pid].state == old(processTable[pid].state))
    {
      var pcb := GetPCB(pid);
      if pcb == null {
        return;
      }
      if pcb.state == TERMINATED || pcb.state == BLOCKED || pcb.state == RUNNING {
        return;
      }
      scheduler.AddToReady(pcb);
    }
  }
}
