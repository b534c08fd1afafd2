// The scheduler: a FIFO ready queue, a FIFO blocked queue and one running slot. Context switches
// go through the CPU's setContext / saveContext.

module Scheduling {
  import opened Words
  import opened Process
  import opened Cpu

  /** `q` without any PCB whose pid is `pid` (removeIf), the others in their order. */
  function WithoutPid(q: seq<PCB>, pid: int): (r: seq<PCB>)
    ensures |r| <= |q|
  {
    if q == [] then []
    else if q[0].pid == pid then WithoutPid(q[1..], pid)
    else [q[0]] + WithoutPid(q[1..], pid)
  }

  /** `q` without its first occurrence of `p` (BlockingQueue.remove), or `q` itself. */
  function RemoveFirst(q: seq<PCB>, p: PCB): seq<PCB> {
    if q == [] then []
    else if q[0] == p then q[1..]
    else [q[0]] + RemoveFirst(q[1..], p)
  }

  /** removeIf keeps exactly the PCBs with another pid. */
  lemma {:induction false} WithoutPidSpec(q: seq<PCB>, pid: int)
    ensures forall p :: p in WithoutPid(q, pid) ==> p.pid != pid && p in q
    ensures forall p :: p in q && p.pid != pid ==> p in WithoutPid(q, pid)
  {
    if q != [] {
      WithoutPidSpec(q[1..], pid);
    }
  }

  /** removeIf keeps relative order: what was in front stays in front. */
  lemma {:induction false} WithoutPidConcat(a: seq<PCB>, b: seq<PCB>, pid: int)
    ensures WithoutPid(a + b, pid) == WithoutPid(a, pid) + WithoutPid(b, pid)
  {
    if a != [] {
      assert (a + b)[1..] == a[1..] + b;
      WithoutPidConcat(a[1..], b, pid);
    } else {
      assert a + b == b;
    }
  }

  /** A queue holding no PCB with that pid is left as it is. */
  lemma {:induction false} WithoutPidAbsent(q: seq<PCB>, pid: int)
    requires forall p :: p in q ==> p.pid != pid
    ensures WithoutPid(q, pid) == q
  {
    if q != [] {
      WithoutPidAbsent(q[1..], pid);
      assert q == [q[0]] + q[1..];
    }
  }

  /** remove(p) takes out exactly one occurrence of p when there is one, and nothing otherwise. */
  lemma {:induction false} RemoveFirstSpec(q: seq<PCB>, p: PCB)
    ensures p in q ==> multiset(RemoveFirst(q, p)) == multiset(q) - multiset{p}
    ensures p !in q ==> RemoveFirst(q, p) == q
    ensures forall x :: x in RemoveFirst(q, p) ==> x in q
  {
    if q != [] {
      RemoveFirstSpec(q[1..], p);
      assert q == [q[0]] + q[1..];
      if q[0] != p && p in q {
        assert p in q[1..];
      }
    }
  }

  /** One time slice of round robin over the order [running] + ready: the head moves to the tail. */
  function Rotate(order: seq<PCB>): seq<PCB> {
    if order == [] then [] else order[1..] + [order[0]]
  }

  function RotateN(order: seq<PCB>, k: nat): seq<PCB> {
    if k == 0 then order else Rotate(RotateN(order, k - 1))
  }

  /** After k <= n slices the k processes at the head have had their turn and wait, in the same
      order, behind the others: every process gets the CPU once per n slices. */
  lemma {:induction false} RoundRobin(order: seq<PCB>, k: nat)
    requires k <= |order|
    ensures RotateN(order, k) == order[k..] + order[..k]
  {
    if k > 0 {
      RoundRobin(order, k - 1);
      var prev := order[k - 1..] + order[..k - 1];
      assert prev[0] == order[k - 1];
      assert prev[1..] == order[k..] + order[..k - 1];
      assert order[..k] == order[..k - 1] + [order[k - 1]];
    }
  }

  /** A full round of n slices brings back the original order. */
  lemma FullRoundRestoresOrder(order: seq<PCB>)
    ensures RotateN(order, |order|) == order
  {
    RoundRobin(order, |order|);
  }

  class Scheduler {
    var readyQueue: seq<PCB>
    var blockedQueue: seq<PCB>
    var running: PCB?
    const cpu: CPU
    var autoSchedule: bool

    ghost predicate Valid()
      reads this
    {
      cpu.Valid() &&
      (running != null ==> running.HasRegisters()) &&
      (forall p :: p in readyQueue ==> p.HasRegisters()) &&
      (forall p :: p in blockedQueue ==> p.HasRegisters())
    }

    /** Empty queues, nothing running, automatic scheduling off. */
    constructor (cpu: CPU)
      requires cpu.Valid()
      ensures Valid() && this.cpu == cpu
      ensures readyQueue == [] && blockedQueue == [] && running == null && !autoSchedule
    {
      this.cpu := cpu;
      readyQueue := [];
      blockedQueue := [];
      running := null;
      autoSchedule := false;
    }

    /** Marks the process READY and appends it to the ready queue, whether or not it is queued
        already. */
    method AddToReady(pcb: PCB)
      requires Valid() && pcb.HasRegisters()
      modifies this`readyQueue, pcb`state
      ensures Valid()
      ensures pcb.state == READY && readyQueue == old(readyQueue) + [pcb]
    {
      pcb.state := READY;
      readyQueue := readyQueue + [pcb];
    }

    /** Timer preemption: the running process's context is saved, it becomes READY at the tail of
        the ready queue and the running slot empties. Nothing happens when nothing runs. */
    method OnTimer()
      requires Valid()
      modifies this`readyQueue, this`running, (if running != null then {running} else {})`state,
        (if running != null then {running} else {})`pc, if running != null then {running.reg} else {}
      ensures Valid() && blockedQueue == old(blockedQueue)
      ensures old(running) == null ==> readyQueue == old(readyQueue) && running == null
      ensures old(running) != null ==>
        running == null && readyQueue == old(readyQueue) + [old(running)] &&
        old(running).state == READY && old(running).pc == cpu.pc && old(running).reg[..] == cpu.reg[..]
    {
      if running != null {
        cpu.SaveContext(running);
        running.state := READY;
        readyQueue := readyQueue + [running];
        running := null;
      }
    }

    /** Dispatch: with nothing running and a non-empty ready queue, the head leaves the queue,
        becomes RUNNING and its context is loaded into the CPU; otherwise nothing changes. */
    method ScheduleNext()
      requires Valid()
      modifies this`readyQueue, this`running, cpu, cpu.reg, (if |readyQueue| > 0 then {readyQueue[0]} else {})`state
      ensures Valid() && blockedQueue == old(blockedQueue)
      ensures old(running) == null && |old(readyQueue)| > 0 ==>
        running == old(readyQueue)[0] && readyQueue == old(readyQueue)[1..] && running.state == RUNNING &&
        cpu.pc == running.pc && cpu.reg[..] == old(readyQueue[0].reg[..]) && cpu.irpt == NoInterrupt &&
        cpu.instructionCount == 0 && cpu.currentPCB == running
      ensures !(old(running) == null && |old(readyQueue)| > 0) ==>
        running == old(running) && readyQueue == old(readyQueue) && unchanged(cpu)
    {
      if running == null && |readyQueue| > 0 {
        var next := readyQueue[0];
        readyQueue := readyQueue[1..];
        running := next;
        running.state := RUNNING;
        cpu.SetContext(running);
      }
    }

    /** Blocks the running process: its context is saved, it becomes BLOCKED at the tail of the
        blocked queue and the running slot empties. Nothing happens when nothing runs. */
    method BlockRunningProcess()
      requires Valid()
      modifies this`blockedQueue, this`running, (if running != null then {running} else {})`state,
        (if running != null then {running} else {})`pc, if running != null then {running.reg} else {}
      ensures Valid() && readyQueue == old(readyQueue)
      ensures old(running) == null ==> blockedQueue == old(blockedQueue) && running == null
      ensures old(running) != null ==>
        running == null && blockedQueue == old(blockedQueue) + [old(running)] &&
        old(running).state == BLOCKED && old(running).pc == cpu.pc && old(running).reg[..] == cpu.reg[..]
    {
      if running != null {
        cpu.SaveContext(running);
        running.state := BLOCKED;
        blockedQueue := blockedQueue + [running];
        running := null;
      }
    }

    /** Takes the process out of the blocked queue (its first occurrence, if any), marks it READY
        and appends it to the ready queue, whatever its state was. */
    method UnblockProcess(pcb: PCB)
      requires Valid() && pcb.HasRegisters()
      modifies this`blockedQueue, this`readyQueue, pcb`state
      ensures Valid()
      ensures blockedQueue == RemoveFirst(old(blockedQueue), pcb)
      ensures pcb.state == READY && readyQueue == old(readyQueue) + [pcb]
    {
      RemoveFirstSpec(blockedQueue, pcb);
      blockedQueue := RemoveFirst(blockedQueue, pcb);
      pcb.state := READY;
      readyQueue := readyQueue + [pcb];
    }

    /** Forgets every PCB with this pid: in both queues and in the running slot. */
    method RemoveProcess(pid: int)
      requires Valid()
      modifies this`readyQueue, this`blockedQueue, this`running
      ensures Valid()
      ensures readyQueue == WithoutPid(old(readyQueue), pid) && blockedQueue == WithoutPid(old(blockedQueue), pid)
      ensures running == if old(running) != null && old(running).pid == pid then null else old(running)
      ensures !Scheduled(pid)
    {
      WithoutPidSpec(readyQueue, pid);
      WithoutPidSpec(blockedQueue, pid);
      readyQueue := WithoutPid(readyQueue, pid);
      blockedQueue := WithoutPid(blockedQueue, pid);
      if running != null && running.pid == pid {
        running := null;
      }
    }

    /** Some PCB with this pid is queued or running. */
    predicate Scheduled(pid: int)
      reads this
    {
      (exists p :: p in readyQueue && p.pid == pid) || (exists p :: p in blockedQueue && p.pid == pid) ||
      (running != null && running.pid == pid)
    }

    /** Something is ready, running or blocked. */
    function HasReadyProcesses(): (r: bool)
      reads this
      ensures r <==> readyQueue != [] || running != null || blockedQueue != []
    {
      |readyQueue| != 0 || running != null || |blockedQueue| != 0
    }

    function GetRunning(): PCB?
      reads this
    {
      running
    }

    /** One time slice: preempt the running process and dispatch the next. The order
        [running] + ready rotates by one. */
    method TimeSliceRound()
      requires Valid() && running != null
      modifies this`readyQueue, this`running, running`state, running`pc, running.reg, cpu, cpu.reg,
        (if |readyQueue| > 0 then {readyQueue[0]} else {running})`state
      ensures Valid() && running != null
      ensures [running] + readyQueue == Rotate([old(running)] + old(readyQueue))
    {
      OnTimer();
      ScheduleNext();
    }
  }
}
