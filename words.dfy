// Machine words, interrupts and the small arithmetic the simulator relies on.

module Words {

  /** A Java `int`. */
  type Int32 = x: int | -0x8000_0000 <= x < 0x8000_0000

  /** Java's wrap-around for a 32-bit `int` result. */
  function Wrap32(x: int): (r: Int32)
    ensures (r - x) % 0x1_0000_0000 == 0
    ensures -0x8000_0000 <= x < 0x8000_0000 ==> r == x
  {
    (x + 0x8000_0000) % 0x1_0000_0000 - 0x8000_0000
  }

  /** `(int) Math.ceil((double) n / d)` for a non-negative `n` and positive `d`. */
  function CeilDiv(n: int, d: int): (q: int)
    requires n >= 0 && d > 0
    ensures q >= 0
    ensures q * d >= n
    ensures q == 0 || (q - 1) * d < n
  {
    if n == 0 then 0 else 1 + CeilDiv(if n >= d then n - d else 0, d)
  }

  /** Opcodes of the instruction set (the enum itself is not part of this model; these are the
      constants the CPU and the kernel name). `Blank` stands for the opcode spelled `___`. */
  datatype Opcode =
    | DATA | Blank
    | JMP | JMPI | JMPIG | JMPIL | JMPIE | JMPIM | JMPIGM | JMPILM | JMPIEM
    | JMPIGK | JMPILK | JMPIEK | JMPIGT
    | ADDI | SUBI | ADD | SUB | MULT
    | LDI | LDD | STD | LDX | STX | MOVE
    | SYSCALL | STOP

  /** One memory position: an instruction or a datum (`p` holds the datum when `opc == DATA`). */
  datatype Word = Word(opc: Opcode, ra: Int32, rb: Int32, p: Int32)

  /** What a fresh physical memory holds in every position. */
  const EmptyWord := Word(Blank, -1, -1, -1)
  /** Filler for page slices past the end of an image, and for empty disk slots. */
  const PadWord := Word(DATA, -1, -1, -1)
  /** Filler the kernel writes past the end of a program image, and the memory manager's initial word. */
  const ZeroWord := Word(DATA, 0, 0, 0)

  /** A page of `n` filler words. */
  function Pad(n: nat): (page: seq<Word>)
    ensures |page| == n && forall i :: 0 <= i < n ==> page[i] == PadWord
  {
    seq(n, _ => PadWord)
  }

  /** The interrupt kinds the CPU raises. */
  datatype Interrupts =
    | NoInterrupt | IntPageFault | IntEnderecoInvalido | IntInstrucaoInvalida
    | IntOverflow | IntTimer | IntSysCallStop

  datatype Option<T> = None | Some(value: T)

  /** The end of a call that may leave through an unchecked exception. */
  datatype Outcome<T> = Returned(value: T) | Threw

  // ---------------------------------------------------------------------------------------------
  // The Word constructor as written: each parameter is assigned to itself, so the new object's
  // fields keep Java's defaults (a null opcode and zeros).

  /** A `Word` object as the constructor leaves it: `opc` may be null. */
  datatype RawWord = RawWord(opc: Option<Opcode>, ra: int, rb: int, p: int)

  /** The object `new Word(opc, ra, rb, p)` builds as written. */
  function WordAsWritten(opc: Opcode, ra: Int32, rb: Int32, p: Int32): (w: RawWord)
    ensures w.opc.None?
  {
    RawWord(None, 0, 0, 0)
  }

  /** The constructor as intended: every field keeps its argument. */
  function MakeWord(opc: Opcode, ra: Int32, rb: Int32, p: Int32): (w: Word)
    ensures w.opc == opc && w.ra == ra && w.rb == rb && w.p == p
  {
    Word(opc, ra, rb, p)
  }

  /** As written, two words built from different arguments cannot be told apart. */
  lemma WordAsWrittenForgetsArguments(opc: Opcode, ra: Int32, rb: Int32, p: Int32)
    ensures WordAsWritten(opc, ra, rb, p) == WordAsWritten(DATA, 0, 0, 0)
    ensures WordAsWritten(opc, ra, rb, p).opc == None
  {
  }

  /** As intended, the construction is injective: the word determines its arguments. */
  lemma MakeWordInjective(opc: Opcode, ra: Int32, rb: Int32, p: Int32,
                          opc': Opcode, ra': Int32, rb': Int32, p': Int32)
    requires MakeWord(opc, ra, rb, p) == MakeWord(opc', ra', rb', p')
    ensures opc == opc' && ra == ra' && rb == rb' && p == p'
  {
  }
}
