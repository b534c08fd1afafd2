// The disk's listener: what the kernel does when a page-in or a page-out request finishes.

module DiskCallbacks {
  import opened Words
  import opened PhysicalMemory
  import opened Process
  import opened FrameAllocator
  import opened Scheduling
  import opened Paging
  import opened Kernel

  class DiskCallback {
    const so: SO

    constructor (so: SO)
      ensures this.so == so
    {
      this.so := so;
    }

    /** pageInComplete: the page of the program image is copied word by word into the frame; a word
        falling outside memory throws and ends the callback there. The process's int table then
        records the frame (throwing when the table is missing or lacks the page) and the process
        becomes READY at the tail of the ready queue. The process's page size is the memory's, as
        the image installer asks of its callers. */
    method PageInComplete(process: PCB, pageNumber: int, frameIndex: int, diskSlot: int) returns (threw: bool)
      requires so.Valid() && process.HasRegisters() && process.pageSize == so.tamPg
      modifies so.mem.pos, process`intPageTable, process`state, so.scheduler`readyQueue
      ensures so.Valid()
      ensures so.mem.pos[..] ==
        WriteRange(old(so.mem.pos[..]), frameIndex * so.tamPg, ProgramPage(process.programImage, so.tamPg, pageNumber))
      ensures 0 <= frameIndex * so.tamPg && frameIndex * so.tamPg + so.tamPg <= so.mem.tamMem ==>
        so.mem.pos[frameIndex * so.tamPg .. frameIndex * so.tamPg + so.tamPg] ==
          ProgramPage(process.programImage, so.tamPg, pageNumber)
      ensures threw <==>
        !(0 <= frameIndex * so.tamPg && frameIndex * so.tamPg + so.tamPg <= so.mem.tamMem) ||
        old(process.intPageTable).None? || !(0 <= pageNumber < |old(process.intPageTable).value|)
      ensures !threw ==>
        process.intPageTable == Some(old(process.intPageTable).value[pageNumber := frameIndex]) &&
        process.state == READY && so.scheduler.readyQueue == old(so.scheduler.readyQueue) + [process]
      ensures threw ==>
        process.intPageTable == old(process.intPageTable) && process.state == old(process.state) &&
        so.scheduler.readyQueue == old(so.scheduler.readyQueue)
    {
      var data := process.GetProgramPage(pageNumber);
      var physStart := frameIndex * so.mem.tamPg;
      threw := so.mem.WritePage(physStart, data);
      if 0 <= physStart && physStart + so.tamPg <= so.mem.tamMem {
        WrittenPageReadsBack(old(so.mem.pos[..]), physStart, data);
      }
      if threw {
        return;
      }
      if process.intPageTable.None? || pageNumber < 0 || pageNumber >= |process.intPageTable.value| {
        return true;
      }
      process.intPageTable := Some(process.intPageTable.value[pageNumber := frameIndex]);
      process.state := READY;
      so.scheduler.AddToReady(process);
    }

    /** pageOutComplete: a slot of -1 means the disk was full. The victim, when it is still in the
        process table, is terminated and removed (rm), and the scheduler dispatches the next ready
        process. Any other slot is a completed save and changes nothing. */
    method PageOutComplete(victimPid: int, victimPageNumber: int, diskSlot: int)
      requires so.Valid()
      modifies so`processTable, so.scheduler`readyQueue, so.scheduler`blockedQueue, so.scheduler`running, so.ft,
        if victimPid in so.processTable then {so.processTable[victimPid]} else {},
        so.scheduler.cpu, so.scheduler.cpu.reg, (set p | p in so.scheduler.readyQueue)`state
      ensures so.Valid()
      ensures diskSlot != -1 ==>
        so.processTable == old(so.processTable) && so.scheduler.readyQueue == old(so.scheduler.readyQueue) &&
        so.scheduler.blockedQueue == old(so.scheduler.blockedQueue) &&
        so.scheduler.running == old(so.scheduler.running) && so.ft.owners == old(so.ft.owners) &&
        so.ft.occupied == old(so.ft.occupied)
      ensures diskSlot == -1 ==> victimPid !in so.processTable
      ensures diskSlot == -1 && victimPid in old(so.processTable) ==>
        var victim := old(so.processTable[victimPid]);
        so.processTable == old(so.processTable) - {victimPid} && victim.state == TERMINATED &&
        victim.pageTable == None && so.scheduler.blockedQueue == WithoutPid(old(so.scheduler.blockedQueue), victimPid)
      ensures diskSlot == -1 ==>
        var wasRunning := old(so.scheduler.running) != null &&
          (victimPid !in old(so.processTable) || old(so.scheduler.running).pid != victimPid);
        var ready := if victimPid in old(so.processTable) then WithoutPid(old(so.scheduler.readyQueue), victimPid)
                     else old(so.scheduler.readyQueue);
        (wasRunning ==> so.scheduler.running == old(so.scheduler.running) && so.scheduler.readyQueue == ready) &&
        (!wasRunning && |ready| > 0 ==>
          so.scheduler.running == ready[0] && so.scheduler.readyQueue == ready[1..] && ready[0].state == RUNNING) &&
        (!wasRunning && |ready| == 0 ==> so.scheduler.running == null && so.scheduler.readyQueue == [])
    {
      if diskSlot != -1 {
        return;
      }
      var victim := so.GetPCB(victimPid);
      if victim != null {
        victim.state := TERMINATED;
        var removed := so.Rm(victimPid);
        WithoutPidSpec(old(so.scheduler.readyQueue), victimPid);
      }
      so.scheduler.ScheduleNext();
    }
  }
}
