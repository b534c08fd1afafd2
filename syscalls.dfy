// System-call handling: STOP ends the running process, the I/O call with reg[8] == 2 shows the
// word at the logical address in reg[9]. What the console shows is returned to the caller.

module SysCalls {
  import opened Words
  import opened PhysicalMemory
  import opened Process
  import opened Cpu
  import opened Scheduling
  import opened Paging
  import opened Kernel

  class SysCallHandling {
    const so: SO

    constructor (so: SO)
      ensures this.so == so
    {
      this.so := so;
    }

    /** stop: the running process becomes TERMINATED, leaves the scheduler, has its frames
        released and its table dropped, and the next ready process is dispatched. It stays in the
        process table. With nothing running nothing happens. */
    method Stop()
      requires so.Valid()
      modifies so.scheduler`readyQueue, so.scheduler`blockedQueue, so.scheduler`running, so.ft,
        (if so.scheduler.running != null then {so.scheduler.running} else {})`state,
        (if so.scheduler.running != null then {so.scheduler.running} else {})`pageTable,
        so.scheduler.cpu, so.scheduler.cpu.reg, (set p | p in so.scheduler.readyQueue)`state
      ensures so.Valid()
      ensures old(so.scheduler.running) == null ==>
        so.scheduler.readyQueue == old(so.scheduler.readyQueue) && so.scheduler.running == null &&
        so.scheduler.blockedQueue == old(so.scheduler.blockedQueue) &&
        so.ft.owners == old(so.ft.owners) && so.ft.occupied == old(so.ft.occupied)
      ensures old(so.scheduler.running) != null ==>
        var p := old(so.scheduler.running);
        var ready := WithoutPid(old(so.scheduler.readyQueue), p.pid);
        p.state == TERMINATED && p.pageTable == None &&
        so.scheduler.blockedQueue == WithoutPid(old(so.scheduler.blockedQueue), p.pid) &&
        (|ready| > 0 ==>
          so.scheduler.running == ready[0] && so.scheduler.readyQueue == ready[1..] && ready[0].state == RUNNING &&
          so.scheduler.cpu.pc == so.scheduler.running.pc && so.scheduler.cpu.reg[..] == so.scheduler.running.reg[..]) &&
        (|ready| == 0 ==> so.scheduler.running == null && so.scheduler.readyQueue == [])
      ensures so.ft.locked == old(so.ft.locked)
      ensures old(so.scheduler.running) != null && old(so.scheduler.running.pageTable).None? ==>
        so.ft.owners == old(so.ft.owners) && so.ft.occupied == old(so.ft.occupied)
      ensures old(so.scheduler.running) != null && old(so.scheduler.running.pageTable).Some? ==>
        var held := ResidentFrames(old(so.scheduler.running.pageTable).value);
        so.ft.owners == old(so.ft.owners) - held &&
        forall g :: 0 <= g < so.ft.frameQuantity ==> so.ft.occupied[g] == (old(so.ft.occupied[g]) && g !in held)
    {
      var running := so.scheduler.GetRunning();
      if running != null {
        running.state := TERMINATED;
        WithoutPidSpec(so.scheduler.readyQueue, running.pid);
        so.scheduler.RemoveProcess(running.pid);
        so.GmDesaloca(running);
        so.scheduler.ScheduleNext();
      }
    }

    /** The write call for the running process `running` at clock reading `now`: the logical
        address `endLogico` is translated for reading and the `p` field of the word there is
        shown. A page fault, an address error or a physical address outside memory is caught and
        shows nothing; a page fault has by then queued the page's load and blocked the process,
        or found every frame busy and changed nothing. */
    method Output(running: PCB, endLogico: Int32, now: int) returns (shown: Option<Int32>)
      requires so.Valid() && running.HasRegisters()
      modifies so.ft, so.disk`queue, so.scheduler`blockedQueue, so.scheduler`running,
        running`state, running`pc, running`pageTable, running.reg, so.Owners()`pageTable
      ensures so.Valid()
      ensures var t := Translate(old(running.pageTable), so.tamPg, endLogico as int);
        (shown.Some? <==> t.Physical? && 0 <= t.addr < so.mem.tamMem) &&
        (shown.Some? ==> shown.value == so.mem.pos[t.addr].p) &&
        (t.Physical? ==>
          so.disk.queue == old(so.disk.queue) && so.ft.occupied == old(so.ft.occupied) &&
          so.ft.owners == old(so.ft.owners) && so.ft.locked == old(so.ft.locked) &&
          so.scheduler.running == old(so.scheduler.running) &&
          so.scheduler.blockedQueue == old(so.scheduler.blockedQueue) &&
          running.state == old(running.state) && running.pc == old(running.pc) &&
          running.reg[..] == old(running.reg[..]))
      ensures Translate(old(running.pageTable), so.tamPg, endLogico as int).PageFault? ==>
        (running.state == BLOCKED && |so.disk.queue| > |old(so.disk.queue)| &&
         so.disk.queue[|so.disk.queue| - 1].opType == LOAD_PAGE &&
         so.disk.queue[|so.disk.queue| - 1].process == running) ||
        (so.disk.queue == old(so.disk.queue) && so.ft.occupied == old(so.ft.occupied) &&
         so.ft.owners == old(so.ft.owners))
    {
      TranslateSpec(running.pageTable, so.tamPg, endLogico as int);
      var t := so.TraduzEndereco(running, endLogico as int, false, now);
      if !t.Physical? {
        return None;
      }
      var w := so.mem.Read(t.addr);
      if w.Threw? {
        return None;
      }
      return Some(w.value.p);
    }

    /** handle at clock reading `now`: with reg[8] == 2 and a running process, the write call
        `Output` for the logical address in reg[9]. Any other reg[8] (the unimplemented read
        included), or no running process, shows nothing and changes nothing. */
    method Handle(now: int) returns (shown: Option<Int32>)
      requires so.Valid()
      modifies so.ft, so.disk`queue, so.scheduler`blockedQueue, so.scheduler`running,
        (if so.scheduler.running != null then {so.scheduler.running} else {})`state,
        (if so.scheduler.running != null then {so.scheduler.running} else {})`pc,
        (if so.scheduler.running != null then {so.scheduler.running} else {})`pageTable,
        (if so.scheduler.running != null then {so.scheduler.running.reg} else {}),
        so.Owners()`pageTable
      ensures so.Valid()
      ensures old(so.scheduler.cpu.reg[8]) != 2 || old(so.scheduler.running) == null ==>
        shown.None? && so.disk.queue == old(so.disk.queue) && so.ft.occupied == old(so.ft.occupied) &&
        so.ft.owners == old(so.ft.owners) && so.ft.locked == old(so.ft.locked) &&
        so.scheduler.running == old(so.scheduler.running) &&
        so.scheduler.blockedQueue == old(so.scheduler.blockedQueue) &&
        (forall p :: p in old(so.Owners()) ==> p.pageTable == old(p.pageTable))
      ensures old(so.scheduler.cpu.reg[8]) != 2 && old(so.scheduler.running) != null ==>
        var p := old(so.scheduler.running);
        p.state == old(p.state) && p.pc == old(p.pc) && p.pageTable == old(p.pageTable) &&
        p.reg[..] == old(p.reg[..])
      ensures old(so.scheduler.cpu.reg[8]) == 2 && old(so.scheduler.running) != null ==>
        var t := Translate(old(so.scheduler.running.pageTable), so.tamPg, old(so.scheduler.cpu.reg[9]) as int);
        (shown.Some? <==> t.Physical? && 0 <= t.addr < so.mem.tamMem) &&
        (shown.Some? ==> shown.value == so.mem.pos[t.addr].p) &&
        (t.Physical? ==>
          so.disk.queue == old(so.disk.queue) && so.ft.occupied == old(so.ft.occupied) &&
          so.ft.owners == old(so.ft.owners))
      ensures old(so.scheduler.cpu.reg[8]) == 2 && old(so.scheduler.running) != null ==>
        var p := old(so.scheduler.running);
        var t := Translate(old(p.pageTable), so.tamPg, old(so.scheduler.cpu.reg[9]) as int);
        (t.Physical? ==>
          so.ft.locked == old(so.ft.locked) && so.scheduler.running == old(so.scheduler.running) &&
          so.scheduler.blockedQueue == old(so.scheduler.blockedQueue) &&
          p.state == old(p.state) && p.pc == old(p.pc) && p.reg[..] == old(p.reg[..])) &&
        (t.PageFault? ==>
          shown.None? &&
          ((p.state == BLOCKED && |so.disk.queue| > |old(so.disk.queue)| &&
            so.disk.queue[|so.disk.queue| - 1].opType == LOAD_PAGE &&
            so.disk.queue[|so.disk.queue| - 1].process == p) ||
           (so.disk.queue == old(so.disk.queue) && so.ft.occupied == old(so.ft.occupied) &&
            so.ft.owners == old(so.ft.owners))))
    {
      var reg := so.scheduler.cpu.reg;
      if reg[8] == 1 {
        return None;
      } else if reg[8] == 2 {
        var running := so.scheduler.GetRunning();
        if running != null {
          shown := Output(running, reg[9], now);
          return;
        }
        return None;
      }
      return None;
    }
  }
}
