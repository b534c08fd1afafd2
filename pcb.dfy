// Process control block: saved context, lifecycle state, page tables, program image and the
// page-to-disk-slot map.

module Process {
  import opened Words
  import opened PageTable

  datatype ProcState = NEW | READY | RUNNING | BLOCKED | TERMINATED

  /** Word `idx` of an optional program image, or the filler word when there is no image or the
      index falls outside it. */
  function ImageWordOrPad(image: Option<seq<Word>>, idx: int): Word {
    if image.Some? && 0 <= idx < |image.value| then image.value[idx] else PadWord
  }

  /** getProgramPage: page `n` of the image, `pageSize` words long, padded with filler words. */
  function ProgramPage(image: Option<seq<Word>>, pageSize: nat, n: int): (page: seq<Word>)
    ensures |page| == pageSize
  {
    seq(pageSize, i requires 0 <= i < pageSize => ImageWordOrPad(image, n * pageSize + i))
  }

  /** A page lying wholly inside the image is the image's slice. */
  lemma ProgramPageInside(image: seq<Word>, pageSize: nat, n: int)
    requires 0 <= n * pageSize && n * pageSize + pageSize <= |image|
    ensures ProgramPage(Some(image), pageSize, n) == image[n * pageSize .. n * pageSize + pageSize]
  {
  }

  /** The page holding the end of the image is the rest of the image followed by filler. */
  lemma ProgramPageAtEnd(image: seq<Word>, pageSize: nat, n: int)
    requires 0 <= n * pageSize <= |image| <= n * pageSize + pageSize
    ensures ProgramPage(Some(image), pageSize, n)
         == image[n * pageSize ..] + Pad(n * pageSize + pageSize - |image|)
  {
    var page := ProgramPage(Some(image), pageSize, n);
    var expected := image[n * pageSize ..] + Pad(n * pageSize + pageSize - |image|);
    assert |page| == |expected|;
    forall i | 0 <= i < pageSize
      ensures page[i] == expected[i]
    {
      if n * pageSize + i < |image| {
        assert expected[i] == image[n * pageSize + i];
      } else {
        assert expected[i] == Pad(n * pageSize + pageSize - |image|)[i - (|image| - n * pageSize)];
      }
    }
  }

  /** With no image, or a page past the image's end, the page is all filler. */
  lemma ProgramPageBeyond(image: Option<seq<Word>>, pageSize: nat, n: int)
    requires image.None? || n * pageSize >= |image.value| || n * pageSize + pageSize <= 0
    ensures ProgramPage(image, pageSize, n) == Pad(pageSize)
  {
    var page := ProgramPage(image, pageSize, n);
    forall i | 0 <= i < pageSize
      ensures page[i] == PadWord
    {
      assert page[i] == ImageWordOrPad(image, n * pageSize + i);
      assert image.Some? ==> !(0 <= n * pageSize + i < |image.value|);
    }
  }

  class PCB {
    const pid: int
    const nome: string
    var pc: int
    /** The saved register file; the array object itself is never replaced. */
    const reg: array<Int32>
    var trace: bool

    /** The table of PageTableEntry objects the kernel, the disk device and the logger index; None
        once the process's memory has been released. */
    var pageTable: Option<seq<PageTableEntry>>
    /** The `int[] pageTable` this class itself declares, which the constructor sizes,
        setProgramImage reallocates and the page-in callback writes frame numbers into. */
    var intPageTable: Option<seq<int>>
    var numPages: int
    const tamanhoEmPalavras: int

    var state: ProcState
    var programImage: Option<seq<Word>>
    var pageSize: int
    /** Logical page number to disk slot. */
    var diskSlots: map<int, int>

    /** The register file has the CPU's ten registers (depends on constants only). */
    ghost predicate HasRegisters() {
      reg.Length == 10
    }

    /** A NEW process of `tamanhoEmPalavras` words in pages of `tamPg` words, no image yet. */
    constructor (pid: int, nome: string, tamanhoEmPalavras: int, tamPg: int)
      requires tamanhoEmPalavras >= 0 && tamPg > 0
      ensures HasRegisters() && fresh(reg) && forall r :: 0 <= r < 10 ==> reg[r] == 0
      ensures this.pid == pid && this.nome == nome && this.tamanhoEmPalavras == tamanhoEmPalavras
      ensures pc == 0 && state == NEW && !trace
      ensures numPages == CeilDiv(tamanhoEmPalavras, tamPg)
      ensures intPageTable == Some(seq(numPages, _ => 0))
      ensures pageTable == Some(seq(numPages, _ => NotLoadedEntry()))
      ensures programImage == None && pageSize == tamPg && diskSlots == map[]
    {
      this.pid := pid;
      this.nome := nome;
      this.tamanhoEmPalavras := tamanhoEmPalavras;
      pc := 0;
      reg := new Int32[10](_ => 0);
      trace := false;
      state := NEW;
      var pages := CeilDiv(tamanhoEmPalavras, tamPg);
      numPages := pages;
      intPageTable := Some(seq(pages, _ => 0));
      pageTable := Some(seq(pages, _ => NotLoadedEntry()));
      programImage := None;
      pageSize := tamPg;
      diskSlots := map[];
    }

    /** Installs the image, recomputes the page count and reallocates the int table only when it is
        missing or of the wrong length. */
    method SetProgramImage(img: Option<seq<Word>>, pageSize: int)
      requires pageSize > 0 && tamanhoEmPalavras >= 0
      modifies this`programImage, this`pageSize, this`numPages, this`intPageTable
      ensures programImage == img && this.pageSize == pageSize
      ensures numPages == CeilDiv(tamanhoEmPalavras, pageSize)
      ensures intPageTable ==
        if old(intPageTable).Some? && |old(intPageTable).value| == numPages then old(intPageTable)
        else Some(seq(numPages, _ => 0))
    {
      programImage := img;
      this.pageSize := pageSize;
      numPages := CeilDiv(tamanhoEmPalavras, pageSize);
      if intPageTable.None? || |intPageTable.value| != numPages {
        intPageTable := Some(seq(numPages, _ => 0));
      }
    }

    /** getProgramPage: never null, always pageSize words. */
    function GetProgramPage(n: int): (page: seq<Word>)
      reads this
      requires pageSize >= 0
      ensures |page| == pageSize
      ensures forall i :: 0 <= i < pageSize ==> page[i] == ImageWordOrPad(programImage, n * pageSize + i)
    {
      ProgramPage(programImage, pageSize, n)
    }

    /** The victim page for swap-out: the first page, or -1 when there is no page at all. */
    function GetPageToEvict(): (r: int)
      reads this
      ensures r == -1 <==> intPageTable.None? || |intPageTable.value| == 0
      ensures r != -1 ==> 0 <= r < |intPageTable.value| && r == 0
    {
      if intPageTable.None? || |intPageTable.value| == 0 then -1 else 0
    }

    /** The disk slot recorded for a logical page, -1 when none is. */
    function GetDiskSlotForPage(pageNumber: int): (slot: int)
      reads this
      ensures pageNumber !in diskSlots ==> slot == -1
      ensures pageNumber in diskSlots ==> slot == diskSlots[pageNumber]
    {
      if pageNumber in diskSlots then diskSlots[pageNumber] else -1
    }

    /** Records a page's disk slot; every other page keeps its slot. */
    method SetDiskSlotForPage(pageNumber: int, slot: int)
      modifies this`diskSlots
      ensures GetDiskSlotForPage(pageNumber) == slot
      ensures forall q :: q != pageNumber ==> GetDiskSlotForPage(q) == old(GetDiskSlotForPage(q))
    {
      diskSlots := diskSlots[pageNumber := slot];
    }
  }
}
