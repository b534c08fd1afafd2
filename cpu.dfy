// The CPU: context switch, per-instruction checks and one fetch-execute step.
//
// Address translation belongs to the kernel, and a system call's effect belongs to its handler;
// a step sees both through parameters: `xlate(a, isWrite)` is what the kernel's translation
// returns or throws for logical address `a`, and `sys` is how the system-call handler ended.

module Cpu {
  import opened Words
  import opened PhysicalMemory
  import opened Process

  const MaxInt := 32767
  const MinInt := -32767

  /** What translating a logical address yields: a physical address, a PageFaultException, or
      any other exception. */
  datatype Translation = Physical(addr: int) | PageFault | AddressError

  /** How `sysCall.handle()` ended: it returned whether the call completed, or it threw a
      PageFaultException. */
  datatype SysResult = SysCompleted(completed: bool) | SysPageFault

  /** How a step ended: the CPU was stopped; it returned early leaving `irpt` set; it reached the
      interrupt check and dispatched `irpt` (NoInterrupt when none was raised); or a register index
      outside the register file threw out of the step. */
  datatype StepEnd = Halted | Pending(irpt: Interrupts) | Dispatched(irpt: Interrupts) | Crashed

  /** How the instruction switch ended: fell through to the counter, returned early, or threw. */
  datatype Flow = Next | Return | Crash

  /** The part of the CPU and memory a step reads and writes. */
  datatype Core = Core(pc: int, reg: seq<Int32>, ir: Option<Word>, irpt: Interrupts, count: int,
                       mem: seq<Word>)

  datatype Exec = Exec(c: Core, flow: Flow)

  // ---------------------------------------------------------------------------------------------
  // Specification of one step.

  predicate RegOk(c: Core, i: int) {
    0 <= i < |c.reg|
  }

  /** isValidInstruction: the opcodes the switch accepts; null, DATA and `___` are refused. */
  function IsValidInstruction(opc: Option<Opcode>): (ok: bool)
    ensures ok ==> opc.Some?
    ensures opc == None || opc == Some(DATA) || opc == Some(Blank) ==> !ok
  {
    opc.Some? && opc.value != DATA && opc.value != Blank
  }

  /** readMemory: the word at the translated address, or the empty word and the interrupt the
      failed translation or bounds check raises. */
  function Load(c: Core, xlate: (int, bool) -> Translation, a: int): (Core, Word) {
    match xlate(a, false)
    case Physical(p) =>
      if 0 <= p < |c.mem| then (c, c.mem[p]) else (c.(irpt := IntEnderecoInvalido), EmptyWord)
    case PageFault => (c.(irpt := IntPageFault), EmptyWord)
    case AddressError => (c.(irpt := IntEnderecoInvalido), EmptyWord)
  }

  /** writeMemory: stores at the translated address, or raises the interrupt of the failure. */
  function Store(c: Core, xlate: (int, bool) -> Translation, a: int, w: Word): Core {
    match xlate(a, true)
    case Physical(p) =>
      if 0 <= p < |c.mem| then c.(mem := c.mem[p := w]) else c.(irpt := IntEnderecoInvalido)
    case PageFault => c.(irpt := IntPageFault)
    case AddressError => c.(irpt := IntEnderecoInvalido)
  }

  /** A jump through isValidAddress: a target outside memory raises an interrupt and returns. */
  function JumpTo(c: Core, target: int): Exec {
    if 0 <= target < |c.mem| then Exec(c.(pc := target), Next)
    else Exec(c.(irpt := IntEnderecoInvalido), Return)
  }

  function Skip(c: Core): Exec {
    Exec(c.(pc := c.pc + 1), Next)
  }

  /** An arithmetic result: stored wrapped to 32 bits, then checked against [MinInt, MaxInt]. */
  function Arith(c: Core, ra: int, v: int): Exec
    requires RegOk(c, ra)
  {
    var r := Wrap32(v);
    var c1 := c.(reg := c.reg[ra := r]);
    if r < MinInt || r > MaxInt then Exec(c1.(irpt := IntOverflow), Return)
    else Exec(c1.(pc := c.pc + 1), Next)
  }

  function LoadReg(c: Core, xlate: (int, bool) -> Translation, ra: int, a: int): Exec {
    var (c1, d) := Load(c, xlate, a);
    if c1.irpt != NoInterrupt then Exec(c1, Next)
    else if !RegOk(c1, ra) then Exec(c1, Crash)
    else Exec(c1.(reg := c1.reg[ra := d.p], pc := c1.pc + 1), Next)
  }

  function StoreReg(c: Core, xlate: (int, bool) -> Translation, a: int, v: Int32): Exec {
    var c1 := Store(c, xlate, a, Word(DATA, -1, -1, v));
    if c1.irpt != NoInterrupt then Exec(c1, Next) else Exec(c1.(pc := c1.pc + 1), Next)
  }

  function JumpIndirect(c: Core, xlate: (int, bool) -> Translation, a: int): Exec {
    var (c1, d) := Load(c, xlate, a);
    if c1.irpt != NoInterrupt then Exec(c1, Next) else JumpTo(c1, d.p)
  }

  /** LDI, LDD, LDX, STD, STX, MOVE. */
  function ExecuteTransfer(c: Core, w: Word, xlate: (int, bool) -> Translation): Exec {
    match w.opc
    case LDI => if !RegOk(c, w.ra) then Exec(c, Crash) else Exec(c.(reg := c.reg[w.ra := w.p], pc := c.pc + 1), Next)
    case LDD => LoadReg(c, xlate, w.ra, w.p)
    case LDX => if !RegOk(c, w.rb) then Exec(c, Crash) else LoadReg(c, xlate, w.ra, c.reg[w.rb])
    case STD => if !RegOk(c, w.ra) then Exec(c, Crash) else StoreReg(c, xlate, w.p, c.reg[w.ra])
    case STX =>
      if !RegOk(c, w.rb) || !RegOk(c, w.ra) then Exec(c, Crash)
      else StoreReg(c, xlate, c.reg[w.ra], c.reg[w.rb])
    case MOVE =>
      if !RegOk(c, w.ra) || !RegOk(c, w.rb) then Exec(c, Crash)
      else Exec(c.(reg := c.reg[w.ra := c.reg[w.rb]], pc := c.pc + 1), Next)
    case _ => Exec(c, Next)
  }

  /** ADD, ADDI, SUB, SUBI, MULT. */
  function ExecuteArith(c: Core, w: Word): Exec {
    match w.opc
    case ADD => if !RegOk(c, w.ra) || !RegOk(c, w.rb) then Exec(c, Crash) else Arith(c, w.ra, c.reg[w.ra] as int + c.reg[w.rb] as int)
    case ADDI => if !RegOk(c, w.ra) then Exec(c, Crash) else Arith(c, w.ra, c.reg[w.ra] as int + w.p as int)
    case SUB => if !RegOk(c, w.ra) || !RegOk(c, w.rb) then Exec(c, Crash) else Arith(c, w.ra, c.reg[w.ra] as int - c.reg[w.rb] as int)
    case SUBI => if !RegOk(c, w.ra) then Exec(c, Crash) else Arith(c, w.ra, c.reg[w.ra] as int - w.p as int)
    case MULT => if !RegOk(c, w.ra) || !RegOk(c, w.rb) then Exec(c, Crash) else Arith(c, w.ra, c.reg[w.ra] as int * c.reg[w.rb] as int)
    case _ => Exec(c, Next)
  }

  /** A jump on register rb's sign (or equality with zero) to target `t`; `t` is read from
      register ra when `t` is None. */
  function CondJump(c: Core, w: Word, taken: Int32 -> bool, target: Option<int>): Exec {
    if !RegOk(c, w.rb) then Exec(c, Crash)
    else if !taken(c.reg[w.rb]) then Skip(c)
    else if target.Some? then JumpTo(c, target.value)
    else if !RegOk(c, w.ra) then Exec(c, Crash)
    else JumpTo(c, c.reg[w.ra])
  }

  /** A jump on register rb to the address stored in memory at `p`. */
  function CondJumpIndirect(c: Core, w: Word, xlate: (int, bool) -> Translation, taken: Int32 -> bool): Exec {
    if !RegOk(c, w.rb) then Exec(c, Crash)
    else if !taken(c.reg[w.rb]) then Skip(c)
    else JumpIndirect(c, xlate, w.p)
  }

  /** The jumps. */
  function ExecuteJump(c: Core, w: Word, xlate: (int, bool) -> Translation): Exec {
    match w.opc
    case JMP => JumpTo(c, w.p)
    case JMPIM => JumpIndirect(c, xlate, w.p)
    case JMPIG => CondJump(c, w, v => v > 0, None)
    case JMPIL => CondJump(c, w, v => v < 0, None)
    case JMPIE => CondJump(c, w, v => v == 0, None)
    case JMPIGK => CondJump(c, w, v => v > 0, Some(w.p))
    case JMPILK => CondJump(c, w, v => v < 0, Some(w.p))
    case JMPIEK => CondJump(c, w, v => v == 0, Some(w.p))
    case JMPIGM => CondJumpIndirect(c, w, xlate, v => v > 0)
    case JMPILM => CondJumpIndirect(c, w, xlate, v => v < 0)
    case JMPIEM => CondJumpIndirect(c, w, xlate, v => v == 0)
    case JMPIGT =>
      if !RegOk(c, w.ra) || !RegOk(c, w.rb) then Exec(c, Crash)
      else if c.reg[w.ra] > c.reg[w.rb] then JumpTo(c, w.p) else Skip(c)
    case _ => Exec(c, Next)
  }

  predicate IsTransfer(o: Opcode) { o == LDI || o == LDD || o == LDX || o == STD || o == STX || o == MOVE }
  predicate IsArith(o: Opcode) { o == ADD || o == ADDI || o == SUB || o == SUBI || o == MULT }
  predicate IsJump(o: Opcode) {
    o == JMP || o == JMPIM || o == JMPIG || o == JMPIL || o == JMPIE || o == JMPIGK || o == JMPILK ||
    o == JMPIEK || o == JMPIGM || o == JMPILM || o == JMPIEM || o == JMPIGT
  }

  /** The instruction switch of step. JMPI passes isValidInstruction but has no case of its own and
      reaches the default branch. */
  function Execute(c: Core, w: Word, xlate: (int, bool) -> Translation, sys: SysResult): Exec {
    if IsTransfer(w.opc) then ExecuteTransfer(c, w, xlate)
    else if IsArith(w.opc) then ExecuteArith(c, w)
    else if IsJump(w.opc) then ExecuteJump(c, w, xlate)
    else if w.opc == SYSCALL then
      (match sys
       case SysCompleted(done) =>
         if done && c.irpt == NoInterrupt then Exec(c.(pc := c.pc + 1), Next) else Exec(c, Next)
       case SysPageFault => Exec(c.(irpt := IntPageFault), Next))
    else if w.opc == STOP then Exec(c.(irpt := IntSysCallStop), Next)
    else Exec(c.(irpt := IntInstrucaoInvalida), Next)
  }

  /** The time-slice counter after an instruction that raised no interrupt. */
  function Tick(c: Core, preemptive: bool, delta: int): Core {
    if preemptive && c.count + 1 >= delta then c.(count := 0, irpt := IntTimer)
    else c.(count := c.count + 1)
  }

  /** One call of step on state `c`. */
  function StepSpec(c: Core, xlate: (int, bool) -> Translation, sys: SysResult, preemptive: bool,
                    delta: int, stopped: bool): (r: (StepEnd, Core))
    ensures r.0 == Halted <==> stopped
    ensures stopped ==> r.1 == c
  {
    if stopped then (Halted, c)
    else
      var (c0, w) := Load(c, xlate, c.pc);
      var c1 := c0.(ir := Some(w));
      if c1.irpt != NoInterrupt then (Pending(c1.irpt), c1)
      else if !IsValidInstruction(Some(w.opc)) then (Pending(IntInstrucaoInvalida), c1.(irpt := IntInstrucaoInvalida))
      else
        var e := Execute(c1, w, xlate, sys);
        match e.flow
        case Crash => (Crashed, e.c)
        case Return => (Pending(e.c.irpt), e.c)
        case Next =>
          var c2 := if e.c.irpt == NoInterrupt then Tick(e.c, preemptive, delta) else e.c;
          (Dispatched(c2.irpt), c2.(irpt := NoInterrupt))
  }

  // ---------------------------------------------------------------------------------------------
  // Properties of a step.

  /** The word step fetches at `c.pc`. */
  function Fetched(c: Core, xlate: (int, bool) -> Translation): Word {
    Load(c, xlate, c.pc).1
  }

  /** readMemory and writeMemory map a PageFaultException to intPageFault and any other failure to
      intEnderecoInvalido, and touch memory only through an in-range physical address. */
  lemma FaultMapping(c: Core, xlate: (int, bool) -> Translation, a: int, w: Word)
    requires c.irpt == NoInterrupt
    ensures xlate(a, false) == PageFault ==> Load(c, xlate, a) == (c.(irpt := IntPageFault), EmptyWord)
    ensures xlate(a, true) == PageFault ==> Store(c, xlate, a, w) == c.(irpt := IntPageFault)
    ensures xlate(a, false) == AddressError ==> Load(c, xlate, a).0.irpt == IntEnderecoInvalido
    ensures xlate(a, true) == AddressError ==> Store(c, xlate, a, w) == c.(irpt := IntEnderecoInvalido)
    ensures Load(c, xlate, a).0.irpt == NoInterrupt <==>
      xlate(a, false).Physical? && 0 <= xlate(a, false).addr < |c.mem|
    ensures Load(c, xlate, a).0.irpt == NoInterrupt ==> Load(c, xlate, a) == (c, c.mem[xlate(a, false).addr])
    ensures Store(c, xlate, a, w).irpt == NoInterrupt <==>
      xlate(a, true).Physical? && 0 <= xlate(a, true).addr < |c.mem|
    ensures Store(c, xlate, a, w).mem ==
      if Store(c, xlate, a, w).irpt == NoInterrupt then c.mem[xlate(a, true).addr := w] else c.mem
    ensures Load(c, xlate, a).0.(irpt := c.irpt) == c && Store(c, xlate, a, w).(irpt := c.irpt, mem := c.mem) == c
  {
  }

  /** With an interrupt left pending, a step fetches and returns at once: pc, registers, memory and
      the counter stay as they are and an interrupt stays pending. */
  lemma PendingInterruptStalls(c: Core, xlate: (int, bool) -> Translation, sys: SysResult,
                               preemptive: bool, delta: int)
    requires c.irpt != NoInterrupt
    ensures var (e, c') := StepSpec(c, xlate, sys, preemptive, delta, false);
      e.Pending? && c'.irpt != NoInterrupt && c'.pc == c.pc && c'.reg == c.reg && c'.mem == c.mem &&
      c'.count == c.count
  {
  }

  /** `n` steps in the same environment. */
  function Steps(c: Core, xlate: (int, bool) -> Translation, sys: SysResult, preemptive: bool,
                 delta: int, n: nat): Core
    decreases n
  {
    if n == 0 then c else Steps(StepSpec(c, xlate, sys, preemptive, delta, false).1, xlate, sys, preemptive, delta, n - 1)
  }

  /** Once a step returns early (an overflow, an invalid instruction, a bad jump target, a fault at
      fetch), no later step makes progress until the context is set again: no timer can fire,
      since the counter only moves on interrupt-free instructions. */
  lemma {:induction false} PendingInterruptLivelock(c: Core, xlate: (int, bool) -> Translation,
                                                    sys: SysResult, preemptive: bool, delta: int, n: nat)
    requires c.irpt != NoInterrupt
    decreases n
    ensures var c' := Steps(c, xlate, sys, preemptive, delta, n);
      c'.irpt != NoInterrupt && c'.pc == c.pc && c'.reg == c.reg && c'.mem == c.mem && c'.count == c.count
  {
    if n > 0 {
      PendingInterruptStalls(c, xlate, sys, preemptive, delta);
      PendingInterruptLivelock(StepSpec(c, xlate, sys, preemptive, delta, false).1, xlate, sys, preemptive, delta, n - 1);
    }
  }

  /** A DATA word or a `___` word is never executed: the step raises intInstrucaoInvalida and
      returns with pc, registers, memory and counter unchanged. */
  lemma DataNeverExecutes(c: Core, xlate: (int, bool) -> Translation, sys: SysResult, preemptive: bool, delta: int)
    requires c.irpt == NoInterrupt
    requires Load(c, xlate, c.pc).0.irpt == NoInterrupt
    requires Fetched(c, xlate).opc == DATA || Fetched(c, xlate).opc == Blank
    ensures var (e, c') := StepSpec(c, xlate, sys, preemptive, delta, false);
      e == Pending(IntInstrucaoInvalida) && c'.irpt == IntInstrucaoInvalida &&
      c'.pc == c.pc && c'.reg == c.reg && c'.mem == c.mem && c'.count == c.count
  {
  }

  /** An arithmetic instruction that overflows ends the step before the counter and the dispatch:
      pc and the counter stay as they were and intOverflow is left pending. */
  lemma OverflowStalls(c: Core, xlate: (int, bool) -> Translation, sys: SysResult, preemptive: bool, delta: int)
    requires Load(c, xlate, c.pc).0.irpt == NoInterrupt
    requires IsArith(Fetched(c, xlate).opc)
    ensures var (e, c') := StepSpec(c, xlate, sys, preemptive, delta, false);
      e.Pending? ==>
        e == Pending(IntOverflow) && c'.irpt == IntOverflow && c'.pc == c.pc && c'.count == c.count &&
        c'.mem == c.mem
  {
    var (c0, w) := Load(c, xlate, c.pc);
    ArithFrame(c0.(ir := Some(w)), w);
  }

  /** What a transfer leaves alone: it never returns early. */
  lemma TransferFrame(c: Core, w: Word, xlate: (int, bool) -> Translation)
    requires IsTransfer(w.opc)
    ensures var e := ExecuteTransfer(c, w, xlate);
      e.c.count == c.count && e.c.ir == c.ir && |e.c.reg| == |c.reg| &&
      (w.opc != STD && w.opc != STX ==> e.c.mem == c.mem) &&
      (c.irpt != IntTimer ==> e.c.irpt != IntTimer) && e.flow != Return &&
      (e.c.pc == c.pc || e.c.pc == c.pc + 1)
  {
  }

  /** What an arithmetic instruction leaves alone; an early return leaves intOverflow set. */
  lemma ArithFrame(c: Core, w: Word)
    requires IsArith(w.opc)
    ensures var e := ExecuteArith(c, w);
      e.c.count == c.count && e.c.ir == c.ir && |e.c.reg| == |c.reg| && e.c.mem == c.mem &&
      (c.irpt != IntTimer ==> e.c.irpt != IntTimer) && (e.flow == Return ==> e.c.irpt == IntOverflow && e.c.pc == c.pc) &&
      (e.c.pc == c.pc || e.c.pc == c.pc + 1)
  {
  }

  /** What a conditional jump leaves alone; an early return leaves an interrupt set. */
  lemma CondJumpFrame(c: Core, w: Word, xlate: (int, bool) -> Translation, taken: Int32 -> bool, target: Option<int>)
    ensures var e := CondJump(c, w, taken, target);
      e.c.count == c.count && e.c.ir == c.ir && e.c.reg == c.reg && e.c.mem == c.mem &&
      (c.irpt != IntTimer ==> e.c.irpt != IntTimer) && (e.flow == Return ==> e.c.irpt != NoInterrupt) &&
      (e.c.pc == c.pc || e.c.pc == c.pc + 1 || 0 <= e.c.pc < |c.mem|)
    ensures var e := CondJumpIndirect(c, w, xlate, taken);
      e.c.count == c.count && e.c.ir == c.ir && e.c.reg == c.reg && e.c.mem == c.mem &&
      (c.irpt != IntTimer ==> e.c.irpt != IntTimer) && (e.flow == Return ==> e.c.irpt != NoInterrupt) &&
      (e.c.pc == c.pc || e.c.pc == c.pc + 1 || 0 <= e.c.pc < |c.mem|)
  {
  }

  /** What a jump leaves alone; an early return leaves an interrupt set. */
  lemma JumpFrame(c: Core, w: Word, xlate: (int, bool) -> Translation)
    requires IsJump(w.opc)
    ensures var e := ExecuteJump(c, w, xlate);
      e.c.count == c.count && e.c.ir == c.ir && e.c.reg == c.reg && e.c.mem == c.mem &&
      (c.irpt != IntTimer ==> e.c.irpt != IntTimer) && (e.flow == Return ==> e.c.irpt != NoInterrupt) &&
      (e.c.pc == c.pc || e.c.pc == c.pc + 1 || 0 <= e.c.pc < |c.mem|)
  {
    match w.opc
    case JMPIG => CondJumpFrame(c, w, xlate, v => v > 0, None);
    case JMPIL => CondJumpFrame(c, w, xlate, v => v < 0, None);
    case JMPIE => CondJumpFrame(c, w, xlate, v => v == 0, None);
    case JMPIGK => CondJumpFrame(c, w, xlate, v => v > 0, Some(w.p));
    case JMPILK => CondJumpFrame(c, w, xlate, v => v < 0, Some(w.p));
    case JMPIEK => CondJumpFrame(c, w, xlate, v => v == 0, Some(w.p));
    case JMPIGM => CondJumpFrame(c, w, xlate, v => v > 0, None);
    case JMPILM => CondJumpFrame(c, w, xlate, v => v < 0, None);
    case JMPIEM => CondJumpFrame(c, w, xlate, v => v == 0, None);
    case _ =>
  }

  /** What an instruction leaves alone: the counter and the fetched word always, the register
      file's size always, and memory unless it is a store. An early return always leaves an
      interrupt set. */
  lemma ExecuteFrame(c: Core, w: Word, xlate: (int, bool) -> Translation, sys: SysResult)
    ensures var e := Execute(c, w, xlate, sys);
      e.c.count == c.count && e.c.ir == c.ir && |e.c.reg| == |c.reg| &&
      (w.opc != STD && w.opc != STX ==> e.c.mem == c.mem) &&
      (c.irpt != IntTimer ==> e.c.irpt != IntTimer) &&
      (e.flow == Return ==> e.c.irpt != NoInterrupt)
  {
    if IsTransfer(w.opc) {
      TransferFrame(c, w, xlate);
    } else if IsArith(w.opc) {
      ArithFrame(c, w);
    } else if IsJump(w.opc) {
      JumpFrame(c, w, xlate);
    }
  }

  /** Every target an instruction jumps to passed the address check. */
  lemma ExecutePcMoves(c: Core, w: Word, xlate: (int, bool) -> Translation, sys: SysResult)
    ensures var e := Execute(c, w, xlate, sys);
      e.c.pc == c.pc || e.c.pc == c.pc + 1 || 0 <= e.c.pc < |c.mem|
  {
    if IsTransfer(w.opc) {
      TransferFrame(c, w, xlate);
    } else if IsArith(w.opc) {
      ArithFrame(c, w);
    } else if IsJump(w.opc) {
      JumpFrame(c, w, xlate);
    }
  }

  /** Only STD and STX write memory. */
  lemma OnlyStoresWriteMemory(c: Core, xlate: (int, bool) -> Translation, sys: SysResult, preemptive: bool, delta: int)
    requires Fetched(c, xlate).opc != STD && Fetched(c, xlate).opc != STX
    ensures StepSpec(c, xlate, sys, preemptive, delta, false).1.mem == c.mem
  {
    var (c0, w) := Load(c, xlate, c.pc);
    ExecuteFrame(c0.(ir := Some(w)), w, xlate, sys);
  }

  /** A store writes at most one word: the DATA word holding the stored register, at the physical
      address its logical address translates to. */
  lemma StoreWritesOneWord(c: Core, xlate: (int, bool) -> Translation, sys: SysResult, preemptive: bool, delta: int)
    requires |c.reg| == 10
    requires Fetched(c, xlate).opc == STD || Fetched(c, xlate).opc == STX
    ensures var c' := StepSpec(c, xlate, sys, preemptive, delta, false).1;
      var w := Fetched(c, xlate);
      var (a, v) := if w.opc == STD then (w.p as int, w.ra) else (if 0 <= w.ra < 10 then c.reg[w.ra] as int else 0, w.rb);
      c'.mem == c.mem ||
      (0 <= v < 10 && 0 <= xlate(a, true).addr < |c.mem| &&
       c'.mem == c.mem[xlate(a, true).addr := Word(DATA, -1, -1, c.reg[v])])
  {
  }

  /** pc moves by one, stays, or lands on an address inside memory (every jump target is checked). */
  lemma PcStaysInBounds(c: Core, xlate: (int, bool) -> Translation, sys: SysResult, preemptive: bool, delta: int)
    ensures var (_, c') := StepSpec(c, xlate, sys, preemptive, delta, false);
      c'.pc == c.pc || c'.pc == c.pc + 1 || 0 <= c'.pc < |c.mem|
  {
    var (c0, w) := Load(c, xlate, c.pc);
    ExecutePcMoves(c0.(ir := Some(w)), w, xlate, sys);
  }

  /** The register file keeps its size. */
  lemma RegisterFileKeepsSize(c: Core, xlate: (int, bool) -> Translation, sys: SysResult, preemptive: bool, delta: int)
    ensures |StepSpec(c, xlate, sys, preemptive, delta, false).1.reg| == |c.reg|
  {
    var (c0, w) := Load(c, xlate, c.pc);
    ExecuteFrame(c0.(ir := Some(w)), w, xlate, sys);
  }

  /** The counter moves only on instructions that raise no interrupt. */
  lemma CountOnlyOnCleanSteps(c: Core, xlate: (int, bool) -> Translation, sys: SysResult, preemptive: bool, delta: int)
    ensures var (e, c') := StepSpec(c, xlate, sys, preemptive, delta, false);
      c'.count != c.count ==> e == Dispatched(NoInterrupt) || e == Dispatched(IntTimer)
  {
    var (c0, w) := Load(c, xlate, c.pc);
    ExecuteFrame(c0.(ir := Some(w)), w, xlate, sys);
  }

  /** In preemptive mode the counter stays in [0, delta): the timer fires exactly when an
      interrupt-free instruction brings it to delta, and resets it. */
  lemma TimeSlice(c: Core, xlate: (int, bool) -> Translation, sys: SysResult, delta: int)
    requires 0 <= c.count < delta
    ensures var (e, c') := StepSpec(c, xlate, sys, true, delta, false);
      0 <= c'.count < delta &&
      (e == Dispatched(NoInterrupt) || e == Dispatched(IntTimer) ==>
        (e == Dispatched(IntTimer) <==> c.count + 1 == delta)) &&
      (e == Dispatched(IntTimer) ==> c'.count == 0) &&
      (e == Dispatched(NoInterrupt) ==> c'.count == c.count + 1)
  {
    var (c0, w) := Load(c, xlate, c.pc);
    var c1 := c0.(ir := Some(w));
    if c1.irpt == NoInterrupt && IsValidInstruction(Some(w.opc)) {
      ExecuteFrame(c1, w, xlate, sys);
    }
  }

  /** A step that reaches the interrupt check always leaves no interrupt pending. */
  lemma DispatchClears(c: Core, xlate: (int, bool) -> Translation, sys: SysResult, preemptive: bool, delta: int)
    ensures var (e, c') := StepSpec(c, xlate, sys, preemptive, delta, false);
      e.Dispatched? ==> c'.irpt == NoInterrupt
    ensures var (e, c') := StepSpec(c, xlate, sys, preemptive, delta, false);
      e.Pending? ==> c'.irpt == e.irpt && e.irpt != NoInterrupt
  {
    var (c0, w) := Load(c, xlate, c.pc);
    ExecuteFrame(c0.(ir := Some(w)), w, xlate, sys);
  }

  /** For operands inside [MinInt, MaxInt] an ADD or SUB cannot wrap, so the overflow check is
      exact: the interrupt is raised iff the true result leaves the range. */
  lemma AddOverflowExact(c: Core, ra: int, a: int, b: int)
    requires RegOk(c, ra) && MinInt <= a <= MaxInt && MinInt <= b <= MaxInt
    ensures (Arith(c, ra, a + b).flow == Return) <==> (a + b < MinInt || a + b > MaxInt)
    ensures (Arith(c, ra, a - b).flow == Return) <==> (a - b < MinInt || a - b > MaxInt)
  {
  }

  /** MULT wraps before it is checked: 65536 * 65536 wraps to 0 and raises no overflow. */
  lemma MultWrapEscapesOverflowCheck(c: Core, w: Word)
    requires |c.reg| == 10 && w.opc == MULT && w.ra == 1 && w.rb == 2
    requires c.reg[1] == 65536 && c.reg[2] == 65536
    ensures ExecuteArith(c, w).flow == Next && ExecuteArith(c, w).c.reg[1] == 0
  {
    assert Wrap32(65536 * 65536) == 0;
  }

  /** With words built by the Word constructor as written (every opcode null), no instruction is
      ever valid, so every program stops at its first fetch. */
  lemma AsWrittenWordsNeverExecute(opc: Opcode, ra: Int32, rb: Int32, p: Int32)
    ensures !IsValidInstruction(WordAsWritten(opc, ra, rb, p).opc)
    ensures opc != DATA && opc != Blank ==> IsValidInstruction(Some(MakeWord(opc, ra, rb, p).opc))
  {
  }

  // ---------------------------------------------------------------------------------------------

  class CPU {
    const maxInt: int
    const minInt: int
    var pc: int
    var ir: Option<Word>
    /** The register file; regs 8 and 9 carry system-call parameters. */
    const reg: array<Int32>
    var irpt: Interrupts
    const mem: Memory
    var cpuStop: bool
    var debug: bool
    var delta: int
    var instructionCount: int
    var preemptive: bool
    var currentPCB: PCB?

    ghost predicate Valid() {
      reg.Length == 10 && mem.Valid() && maxInt == MaxInt && minInt == MinInt
    }

    /** The state a step reads and writes. */
    ghost function State(): Core
      reads this, reg, mem.pos
    {
      Core(pc, reg[..], ir, irpt, instructionCount, mem.pos[..])
    }

    /** A CPU over `m` with ten zero registers, a five-instruction time slice and preemption on. */
    constructor (m: Memory, debug: bool)
      requires m.Valid()
      ensures Valid() && fresh(reg) && mem == m
      ensures forall i :: 0 <= i < 10 ==> reg[i] == 0
      ensures delta == 5 && instructionCount == 0 && preemptive && currentPCB == null
      ensures this.debug == debug
    {
      maxInt := 32767;
      minInt := -32767;
      mem := m;
      reg := new Int32[10](_ => 0);
      this.debug := debug;
      delta := 5;
      instructionCount := 0;
      preemptive := true;
      currentPCB := null;
      irpt := NoInterrupt;
    }

    /** Loads a process's context: its pc and registers; no interrupt pending, a fresh time slice,
        the stop flag cleared and the process's trace flag as debug. */
    method SetContext(pcb: PCB)
      requires Valid() && pcb.HasRegisters()
      modifies this, reg
      ensures Valid()
      ensures pc == pcb.pc && reg[..] == old(pcb.reg[..])
      ensures irpt == NoInterrupt && instructionCount == 0 && !cpuStop
      ensures debug == pcb.trace && currentPCB == pcb
      ensures ir == old(ir) && delta == old(delta) && preemptive == old(preemptive)
    {
      pc := pcb.pc;
      forall i | 0 <= i < 10 {
        reg[i] := pcb.reg[i];
      }
      irpt := NoInterrupt;
      instructionCount := 0;
      cpuStop := false;
      debug := pcb.trace;
      currentPCB := pcb;
    }

    /** setContext(int): a new pc with no interrupt pending and a fresh time slice. */
    method SetContextPc(newPc: int)
      modifies this`pc, this`irpt, this`instructionCount
      ensures pc == newPc && irpt == NoInterrupt && instructionCount == 0
    {
      pc := newPc;
      irpt := NoInterrupt;
      instructionCount := 0;
    }

    /** Stores the CPU's pc and registers into a process's context. */
    method SaveContext(pcb: PCB)
      requires Valid() && pcb.HasRegisters()
      modifies pcb`pc, pcb.reg
      ensures pcb.pc == pc && pcb.reg[..] == old(reg[..]) && reg[..] == old(reg[..])
    {
      pcb.pc := pc;
      forall i | 0 <= i < 10 {
        pcb.reg[i] := reg[i];
      }
    }

    /** Loading a context and saving it back at once hands the process's pc and registers to the
        receiving PCB unchanged. */
    method ContextRoundTrip(pcb: PCB, q: PCB)
      requires Valid() && pcb.HasRegisters() && q.HasRegisters()
      modifies this, reg, q`pc, q.reg
      ensures q.pc == old(pcb.pc) && q.reg[..] == old(pcb.reg[..])
    {
      SetContext(pcb);
      SaveContext(q);
    }

    /** verifyOverflow: true iff v lies in [minInt, maxInt]; otherwise raises intOverflow. */
    method VerifyOverflow(v: int) returns (ok: bool)
      requires Valid()
      modifies this`irpt
      ensures ok <==> MinInt <= v <= MaxInt
      ensures irpt == if ok then old(irpt) else IntOverflow
    {
      if v < minInt || v > maxInt {
        irpt := IntOverflow;
        return false;
      }
      return true;
    }

    /** isValidAddress: true iff 0 <= a < tamMem; otherwise raises intEnderecoInvalido. */
    method IsValidAddress(a: int) returns (ok: bool)
      requires Valid()
      modifies this`irpt
      ensures ok <==> 0 <= a < mem.tamMem
      ensures irpt == if ok then old(irpt) else IntEnderecoInvalido
    {
      if a < 0 || a >= mem.tamMem {
        irpt := IntEnderecoInvalido;
        return false;
      }
      return true;
    }

    method ReadMemory(xlate: (int, bool) -> Translation, a: int) returns (w: Word)
      requires Valid()
      modifies this`irpt
      ensures (State(), w) == Load(old(State()), xlate, a)
    {
      var t := xlate(a, false);
      match t
      case PageFault =>
        irpt := IntPageFault;
        return EmptyWord;
      case AddressError =>
        irpt := IntEnderecoInvalido;
        return EmptyWord;
      case Physical(p) =>
        var ok := IsValidAddress(p);
        if !ok {
          irpt := IntEnderecoInvalido;
          return EmptyWord;
        }
        var r := mem.Read(p);
        return r.value;
    }

    method WriteMemory(xlate: (int, bool) -> Translation, a: int, w: Word)
      requires Valid()
      modifies this`irpt, mem.pos
      ensures State() == Store(old(State()), xlate, a, w)
    {
      var t := xlate(a, true);
      match t
      case PageFault =>
        irpt := IntPageFault;
      case AddressError =>
        irpt := IntEnderecoInvalido;
      case Physical(p) =>
        var ok := IsValidAddress(p);
        if !ok {
          irpt := IntEnderecoInvalido;
          return;
        }
        var threw := mem.Write(p, w);
    }

    method Jump(target: int) returns (flow: Flow)
      requires Valid()
      modifies this`pc, this`irpt
      ensures Exec(State(), flow) == JumpTo(old(State()), target)
    {
      var ok := IsValidAddress(target);
      if !ok {
        return Return;
      }
      pc := target;
      return Next;
    }

    method ArithStore(ra: int, v: int) returns (flow: Flow)
      requires Valid() && 0 <= ra < 10
      modifies this`pc, this`irpt, reg
      ensures Exec(State(), flow) == Arith(old(State()), ra, v)
    {
      reg[ra] := Wrap32(v);
      var ok := VerifyOverflow(reg[ra]);
      if !ok {
        return Return;
      }
      pc := pc + 1;
      return Next;
    }

    method ExecTransfer(w: Word, xlate: (int, bool) -> Translation) returns (flow: Flow)
      requires Valid() && IsTransfer(w.opc)
      modifies this`pc, this`irpt, reg, mem.pos
      ensures Exec(State(), flow) == ExecuteTransfer(old(State()), w, xlate)
    {
      match w.opc {
        case LDI =>
          if !(0 <= w.ra < 10) { return Crash; }
          reg[w.ra] := w.p;
          pc := pc + 1;
        case LDD =>
          var d := ReadMemory(xlate, w.p);
          if irpt == NoInterrupt {
            if !(0 <= w.ra < 10) { return Crash; }
            reg[w.ra] := d.p;
            pc := pc + 1;
          }
        case LDX =>
          if !(0 <= w.rb < 10) { return Crash; }
          var d := ReadMemory(xlate, reg[w.rb]);
          if irpt == NoInterrupt {
            if !(0 <= w.ra < 10) { return Crash; }
            reg[w.ra] := d.p;
            pc := pc + 1;
          }
        case STD =>
          if !(0 <= w.ra < 10) { return Crash; }
          WriteMemory(xlate, w.p, Word(DATA, -1, -1, reg[w.ra]));
          if irpt == NoInterrupt { pc := pc + 1; }
        case STX =>
          if !(0 <= w.rb < 10) || !(0 <= w.ra < 10) { return Crash; }
          WriteMemory(xlate, reg[w.ra], Word(DATA, -1, -1, reg[w.rb]));
          if irpt == NoInterrupt { pc := pc + 1; }
        case MOVE =>
          if !(0 <= w.ra < 10) || !(0 <= w.rb < 10) { return Crash; }
          reg[w.ra] := reg[w.rb];
          pc := pc + 1;
      }
      return Next;
    }

    method ExecArith(w: Word) returns (flow: Flow)
      requires Valid() && IsArith(w.opc)
      modifies this`pc, this`irpt, reg
      ensures Exec(State(), flow) == ExecuteArith(old(State()), w)
    {
      match w.opc {
        case ADD =>
          if !(0 <= w.ra < 10) || !(0 <= w.rb < 10) { return Crash; }
          flow := ArithStore(w.ra, reg[w.ra] as int + reg[w.rb] as int);
        case ADDI =>
          if !(0 <= w.ra < 10) { return Crash; }
          flow := ArithStore(w.ra, reg[w.ra] as int + w.p as int);
        case SUB =>
          if !(0 <= w.ra < 10) || !(0 <= w.rb < 10) { return Crash; }
          flow := ArithStore(w.ra, reg[w.ra] as int - reg[w.rb] as int);
        case SUBI =>
          if !(0 <= w.ra < 10) { return Crash; }
          flow := ArithStore(w.ra, reg[w.ra] as int - w.p as int);
        case MULT =>
          if !(0 <= w.ra < 10) || !(0 <= w.rb < 10) { return Crash; }
          flow := ArithStore(w.ra, reg[w.ra] as int * reg[w.rb] as int);
      }
    }

    method ExecCondJump(w: Word, taken: Int32 -> bool, target: Option<int>) returns (flow: Flow)
      requires Valid()
      modifies this`pc, this`irpt
      ensures Exec(State(), flow) == CondJump(old(State()), w, taken, target)
    {
      if !(0 <= w.rb < 10) { return Crash; }
      if !taken(reg[w.rb]) {
        pc := pc + 1;
        return Next;
      }
      if target.Some? {
        flow := Jump(target.value);
      } else {
        if !(0 <= w.ra < 10) { return Crash; }
        flow := Jump(reg[w.ra]);
      }
    }

    method ExecJumpIndirect(a: int, xlate: (int, bool) -> Translation) returns (flow: Flow)
      requires Valid()
      modifies this`pc, this`irpt
      ensures Exec(State(), flow) == JumpIndirect(old(State()), xlate, a)
    {
      var d := ReadMemory(xlate, a);
      if irpt != NoInterrupt {
        return Next;
      }
      flow := Jump(d.p);
    }

    method ExecCondJumpIndirect(w: Word, xlate: (int, bool) -> Translation, taken: Int32 -> bool)
      returns (flow: Flow)
      requires Valid()
      modifies this`pc, this`irpt
      ensures Exec(State(), flow) == CondJumpIndirect(old(State()), w, xlate, taken)
    {
      if !(0 <= w.rb < 10) { return Crash; }
      if !taken(reg[w.rb]) {
        pc := pc + 1;
        return Next;
      }
      flow := ExecJumpIndirect(w.p, xlate);
    }

    method ExecJump(w: Word, xlate: (int, bool) -> Translation) returns (flow: Flow)
      requires Valid() && IsJump(w.opc)
      modifies this`pc, this`irpt
      ensures Exec(State(), flow) == ExecuteJump(old(State()), w, xlate)
    {
      match w.opc {
        case JMP => flow := Jump(w.p);
        case JMPIM => flow := ExecJumpIndirect(w.p, xlate);
        case JMPIG => flow := ExecCondJump(w, v => v > 0, None);
        case JMPIL => flow := ExecCondJump(w, v => v < 0, None);
        case JMPIE => flow := ExecCondJump(w, v => v == 0, None);
        case JMPIGK => flow := ExecCondJump(w, v => v > 0, Some(w.p));
        case JMPILK => flow := ExecCondJump(w, v => v < 0, Some(w.p));
        case JMPIEK => flow := ExecCondJump(w, v => v == 0, Some(w.p));
        case JMPIGM => flow := ExecCondJumpIndirect(w, xlate, v => v > 0);
        case JMPILM => flow := ExecCondJumpIndirect(w, xlate, v => v < 0);
        case JMPIEM => flow := ExecCondJumpIndirect(w, xlate, v => v == 0);
        case JMPIGT =>
          if !(0 <= w.ra < 10) || !(0 <= w.rb < 10) { return Crash; }
          if reg[w.ra] > reg[w.rb] {
            flow := Jump(w.p);
          } else {
            pc := pc + 1;
            flow := Next;
          }
      }
    }

    method ExecuteInstruction(w: Word, xlate: (int, bool) -> Translation, sys: SysResult) returns (flow: Flow)
      requires Valid()
      modifies this`pc, this`irpt, reg, mem.pos
      ensures Exec(State(), flow) == Execute(old(State()), w, xlate, sys)
    {
      if IsTransfer(w.opc) {
        flow := ExecTransfer(w, xlate);
      } else if IsArith(w.opc) {
        flow := ExecArith(w);
      } else if IsJump(w.opc) {
        flow := ExecJump(w, xlate);
      } else {
        if w.opc == SYSCALL {
          match sys {
            case SysCompleted(done) =>
              if done && irpt == NoInterrupt { pc := pc + 1; }
            case SysPageFault =>
              irpt := IntPageFault;
          }
        } else if w.opc == STOP {
          irpt := IntSysCallStop;
        } else {
          irpt := IntInstrucaoInvalida;
        }
        flow := Next;
      }
    }

    /** One fetch-execute step, exactly as StepSpec describes it; the interrupt handler itself is
        outside the model and the step reports what it would be handed. */
    method Step(xlate: (int, bool) -> Translation, sys: SysResult) returns (e: StepEnd)
      requires Valid()
      modifies this, reg, mem.pos
      ensures Valid()
      ensures (e, State()) == StepSpec(old(State()), xlate, sys, old(preemptive), old(delta), old(cpuStop))
      ensures cpuStop == old(cpuStop) && delta == old(delta) && preemptive == old(preemptive)
      ensures currentPCB == old(currentPCB) && debug == old(debug)
    {
      if cpuStop {
        return Halted;
      }
      var w := ReadMemory(xlate, pc);
      ir := Some(w);
      if irpt != NoInterrupt {
        return Pending(irpt);
      }
      if !IsValidInstruction(Some(w.opc)) {
        irpt := IntInstrucaoInvalida;
        return Pending(irpt);
      }
      var flow := ExecuteInstruction(w, xlate, sys);
      if flow == Crash {
        return Crashed;
      }
      if flow == Return {
        return Pending(irpt);
      }
      e := CountAndDispatch();
    }

    /** The end of a step that fell through the switch: an interrupt-free instruction is counted
        (raising the timer at the end of the slice), and the pending interrupt is handed over. */
    method CountAndDispatch() returns (e: StepEnd)
      requires Valid()
      modifies this`instructionCount, this`irpt
      ensures var c2 := if old(irpt) == NoInterrupt then Tick(old(State()), preemptive, delta) else old(State());
        e == Dispatched(c2.irpt) && State() == c2.(irpt := NoInterrupt)
    {
      if irpt == NoInterrupt {
        instructionCount := instructionCount + 1;
        if preemptive && instructionCount >= delta {
          irpt := IntTimer;
          instructionCount := 0;
        }
      }
      e := Dispatched(irpt);
      irpt := NoInterrupt;
    }
  }
}
