// The arithmetic of the kernel's paging: logical-to-physical translation, the words a page load
// puts in a frame, the number of words a program needs, and the frames a page table holds.

module Paging {
  import opened Words
  import opened PhysicalMemory
  import opened PageTable
  import opened Cpu

  /** A stored program: its name and its memory image. */
  datatype Program = Program(name: string, image: seq<Word>)

  /** The first program with this name. */
  function FindProgram(programs: seq<Program>, name: string): (r: Option<Program>)
    ensures r.Some? ==> r.value in programs && r.value.name == name
    ensures r.None? <==> forall p :: p in programs ==> p.name != name
  {
    if programs == [] then None
    else if programs[0].name == name then Some(programs[0])
    else FindProgram(programs[1..], name)
  }

  // ---------------------------------------------------------------- translation

  /** Java's `/` on int: the quotient is truncated toward zero. */
  function JavaDiv(a: int, d: int): int
    requires d > 0
  {
    if a >= 0 then a / d else -((-a) / d)
  }

  /** Java's `%` on int: the remainder takes the sign of the dividend. */
  function JavaRem(a: int, d: int): int
    requires d > 0
  {
    a - d * JavaDiv(a, d)
  }

  /** The entry lookup both translations share: a page past the table's end is an error, an
      invalid entry a page fault, an entry without a frame an error. */
  function Lookup(table: seq<PageTableEntry>, tamPg: int, pagina: nat, offset: int): Translation {
    if pagina >= |table| then AddressError
    else if !table[pagina].valid then PageFault
    else if table[pagina].frameNumber < 0 then AddressError
    else Physical(table[pagina].frameNumber * tamPg + offset)
  }

  /** What traduzEndereco does with a logical address, as written: page and offset by Java's
      truncating division; a missing table or a negative page (which indexes the table out of
      bounds) is an error, and the rest is the lookup. */
  function TranslateAsWritten(table: Option<seq<PageTableEntry>>, tamPg: int, endLogico: int): (t: Translation)
    requires tamPg > 0
    ensures table.None? || endLogico <= -tamPg ==> t == AddressError
  {
    if table.None? then AddressError
    else
      var pagina := JavaDiv(endLogico, tamPg);
      if pagina < 0 then AddressError
      else Lookup(table.value, tamPg, pagina, JavaRem(endLogico, tamPg))
  }

  /** The translation the kernel uses: as written, except that a negative logical address is an
      error rather than an address in the frame below the page's own. */
  function Translate(table: Option<seq<PageTableEntry>>, tamPg: int, endLogico: int): (t: Translation)
    requires tamPg > 0
    ensures table.None? || endLogico < 0 ==> t == AddressError
  {
    if table.None? || endLogico < 0 then AddressError
    else Lookup(table.value, tamPg, endLogico / tamPg, endLogico % tamPg)
  }

  lemma DivBounds(a: int, d: int)
    requires a >= 0 && d > 0
    ensures 0 <= a % d < d && a == (a / d) * d + a % d
  {
  }

  /** A translation succeeds exactly for an address inside the table's pages whose entry is
      valid with a frame; the physical address then lies in that frame at the same offset the
      logical address has in its page. An invalid entry is a page fault; everything else is an
      error. */
  lemma TranslateSpec(table: Option<seq<PageTableEntry>>, tamPg: int, endLogico: int)
    requires tamPg > 0
    ensures var t := Translate(table, tamPg, endLogico);
      (t.Physical? <==>
        table.Some? && 0 <= endLogico < |table.value| * tamPg &&
        table.value[endLogico / tamPg].valid && table.value[endLogico / tamPg].frameNumber >= 0) &&
      (t.PageFault? <==>
        table.Some? && 0 <= endLogico < |table.value| * tamPg && !table.value[endLogico / tamPg].valid) &&
      (t.Physical? ==>
        var frame := table.value[endLogico / tamPg].frameNumber;
        frame * tamPg <= t.addr < frame * tamPg + tamPg &&
        t.addr - frame * tamPg == endLogico - (endLogico / tamPg) * tamPg)
  {
    if table.Some? && endLogico >= 0 {
      DivBounds(endLogico, tamPg);
      var pagina := endLogico / tamPg;
      assert pagina < |table.value| <==> endLogico < |table.value| * tamPg by {
        if pagina < |table.value| {
          assert (pagina + 1) * tamPg <= |table.value| * tamPg;
        } else {
          assert |table.value| * tamPg <= pagina * tamPg;
        }
      }
    }
  }

  /** On non-negative addresses the two translations agree. */
  lemma TranslationsAgreeOnNonNegative(table: Option<seq<PageTableEntry>>, tamPg: int, endLogico: int)
    requires tamPg > 0 && endLogico >= 0
    ensures TranslateAsWritten(table, tamPg, endLogico) == Translate(table, tamPg, endLogico)
  {
    if table.Some? {
      var q := endLogico / tamPg;
      assert JavaDiv(endLogico, tamPg) == q;
      DivBounds(endLogico, tamPg);
      assert JavaRem(endLogico, tamPg) == endLogico - tamPg * q;
      assert tamPg * q == q * tamPg;
      var r := JavaRem(endLogico, tamPg);
      assert r == endLogico % tamPg;
      assert TranslateAsWritten(table, tamPg, endLogico) == Lookup(table.value, tamPg, q, r);
      assert Translate(table, tamPg, endLogico) == Lookup(table.value, tamPg, q, r);
    }
  }

  /** As written, logical address -1 of a process whose page 0 sits in frame 1 translates to
      physical address 7: the last word of frame 0, outside the process's own frame [8, 16). */
  lemma NegativeAddressLeavesTheFrame()
    ensures TranslateAsWritten(Some([ResidentEntry(1, 0)]), 8, -1) == Physical(7)
    ensures Translate(Some([ResidentEntry(1, 0)]), 8, -1) == AddressError
  {
    assert JavaDiv(-1, 8) == 0;
    assert JavaRem(-1, 8) == -1;
  }

  // ---------------------------------------------------------------- page loading

  /** The tamPg words a load of page `n` puts in its frame: the image's words where the page
      overlaps the image, DATA(0,0,0) words after the image's end. */
  function PageImage(image: seq<Word>, tamPg: nat, n: int): (page: seq<Word>)
    ensures |page| == tamPg
  {
    seq(tamPg, i requires 0 <= i < tamPg => if 0 <= n * tamPg + i < |image| then image[n * tamPg + i] else ZeroWord)
  }

  /** The number of image words carregaPagina copies for page `n`: from endLogIni to endLogFim. */
  function CopiedWords(imageLength: int, tamPg: int, n: int): int {
    Min(n * tamPg + tamPg - 1, imageLength - 1) - n * tamPg + 1
  }

  function Min(a: int, b: int): int {
    if a <= b then a else b
  }

  /** Memory after carregaPagina as written, for a frame inside memory: the copy loop writes the
      copied image words at the frame's base, then the filler loop writes DATA(0,0,0) from offset
      CopiedWords up to the page's end, and that offset is negative when the page lies past the
      image's end by more than one word. A write below address 0 throws and ends the fill. */
  ghost function CarregaPaginaAsWritten(mem: seq<Word>, image: seq<Word>, tamPg: int, n: int, f: int): seq<Word>
    requires tamPg > 0 && n >= 0
  {
    var start := n * tamPg;
    var copied := CopiedWords(|image|, tamPg, n);
    var written := if copied > 0 then WriteRange(mem, f * tamPg, image[start .. start + copied]) else mem;
    if copied >= tamPg then written
    else WriteRange(written, f * tamPg + copied, seq(tamPg - copied, _ => ZeroWord))
  }

  /** A page that overlaps the image (or starts right at its end) is loaded as written exactly as
      the corrected load does. */
  lemma AsWrittenLoadAgreesWhenPageMeetsImage(mem: seq<Word>, image: seq<Word>, tamPg: int, n: int, f: int)
    requires tamPg > 0 && n >= 0 && n * tamPg <= |image|
    requires 0 <= f * tamPg && f * tamPg + tamPg <= |mem|
    ensures CarregaPaginaAsWritten(mem, image, tamPg, n, f) == WriteRange(mem, f * tamPg, PageImage(image, tamPg, n))
  {
    var start := n * tamPg;
    var copied := CopiedWords(|image|, tamPg, n);
    var base := f * tamPg;
    var page := PageImage(image, tamPg, n);
    assert 0 <= copied <= tamPg;
    var r := CarregaPaginaAsWritten(mem, image, tamPg, n, f);
    var expected := WriteRange(mem, base, page);
    forall a | 0 <= a < |mem|
      ensures r[a] == expected[a]
    {
      if base <= a < base + copied {
        assert page[a - base] == image[start + (a - base)];
      }
    }
  }

  /** As written, loading page 5 of a 20-word image with 8-word pages into frame 3 of a 32-word
      memory writes DATA(0,0,0) at address 4, inside frame 0 and outside frame 3; the corrected
      load leaves address 4 alone. */
  lemma AsWrittenLoadClobbersAnotherFrame()
    ensures CopiedWords(20, 8, 5) == -20
    ensures CarregaPaginaAsWritten(seq(32, _ => EmptyWord), seq(20, _ => EmptyWord), 8, 5, 3)[4] == ZeroWord
    ensures WriteRange(seq(32, _ => EmptyWord), 24, PageImage(seq(20, _ => EmptyWord), 8, 5))[4] == EmptyWord
  {
    var mem := seq(32, _ => EmptyWord);
    var image := seq(20, _ => EmptyWord);
    assert CopiedWords(20, 8, 5) == -20;
    var fill := seq(28, _ => ZeroWord);
    assert CarregaPaginaAsWritten(mem, image, 8, 5, 3) == WriteRange(mem, 4, fill);
    assert WriteRange(mem, 4, fill)[4] == fill[0];
  }

  /** Two frames inside memory: writing frame g with the words read from frame f leaves frame g
      holding exactly those words (the disk's save / load round trip). */
  lemma SaveLoadRoundTrip(mem: seq<Word>, tamPg: int, f: int, g: int)
    requires tamPg > 0
    requires 0 <= f * tamPg && f * tamPg + tamPg <= |mem|
    requires 0 <= g * tamPg && g * tamPg + tamPg <= |mem|
    ensures WriteRange(mem, g * tamPg, mem[f * tamPg .. f * tamPg + tamPg])[g * tamPg .. g * tamPg + tamPg]
         == mem[f * tamPg .. f * tamPg + tamPg]
  {
    var saved := mem[f * tamPg .. f * tamPg + tamPg];
    var r := WriteRange(mem, g * tamPg, saved);
    forall i | 0 <= i < tamPg
      ensures r[g * tamPg + i] == saved[i]
    {
    }
  }

  /** A frame number below memory's frame count names a frame wholly inside memory. */
  lemma FrameInsideMemory(f: int, tamPg: int, tamMem: int)
    requires tamPg > 0 && tamMem >= 0 && 0 <= f < tamMem / tamPg
    ensures 0 <= f * tamPg && f * tamPg + tamPg <= tamMem
  {
    assert (f + 1) * tamPg <= (tamMem / tamPg) * tamPg;
  }

  // ---------------------------------------------------------------- required words

  /** The opcodes whose `p` is a data or jump address. */
  predicate Addresses(opc: Opcode) {
    opc in {LDD, STD, JMP, JMPIM, JMPIGK, JMPILK, JMPIEK, JMPIGM, JMPILM, JMPIEM}
  }

  /** The words one instruction needs: p + 1 (a Java int, so p = MAX_VALUE wraps to MIN_VALUE)
      for an addressing instruction with p >= 0, nothing otherwise. */
  function NeededBy(w: Word): int {
    if Addresses(w.opc) && w.p >= 0 then Wrap32(w.p as int + 1) else -1
  }

  /** The running maximum over the first `k` words, starting from the image length. */
  function NeededUpTo(image: seq<Word>, k: nat): (needed: int)
    requires k <= |image|
    ensures needed >= |image|
    ensures forall i :: 0 <= i < k ==> needed >= NeededBy(image[i])
    ensures needed == |image| || exists i :: 0 <= i < k && needed == NeededBy(image[i])
    decreases k
  {
    if k == 0 then |image|
    else
      var before := NeededUpTo(image, k - 1);
      if NeededBy(image[k - 1]) > before then NeededBy(image[k - 1]) else before
  }

  /** computeRequiredWords: the least number of words covering the image and every address an
      addressing instruction names. */
  function ComputeRequiredWords(image: seq<Word>): (needed: int)
    ensures needed >= |image|
    ensures forall i :: 0 <= i < |image| && Addresses(image[i].opc) && 0 <= image[i].p < 0x7fff_ffff ==>
      needed >= image[i].p + 1
    ensures needed == |image| ||
      exists i :: 0 <= i < |image| && Addresses(image[i].opc) && 0 <= image[i].p && needed == image[i].p + 1
  {
    NeededUpTo(image, |image|)
  }

  // ---------------------------------------------------------------- frames held

  /** The frames a page table holds: those of its valid entries with a frame. */
  function ResidentFrames(table: seq<PageTableEntry>): set<int> {
    set i | 0 <= i < |table| && table[i].valid && table[i].frameNumber >= 0 :: table[i].frameNumber
  }

  lemma ResidentFramesStep(table: seq<PageTableEntry>, i: int)
    requires 0 <= i < |table|
    ensures ResidentFrames(table[..i + 1]) == ResidentFrames(table[..i]) +
      (if table[i].valid && table[i].frameNumber >= 0 then {table[i].frameNumber} else {})
  {
    var a := table[..i + 1];
    var b := table[..i];
    forall f | f in ResidentFrames(a)
      ensures f in ResidentFrames(b) || (table[i].valid && table[i].frameNumber >= 0 && f == table[i].frameNumber)
    {
      var j :| 0 <= j < |a| && a[j].valid && a[j].frameNumber >= 0 && a[j].frameNumber == f;
      if j < i {
        assert b[j] == a[j];
      }
    }
    forall f | f in ResidentFrames(b)
      ensures f in ResidentFrames(a)
    {
      var j :| 0 <= j < |b| && b[j].valid && b[j].frameNumber >= 0 && b[j].frameNumber == f;
      assert a[j] == b[j];
    }
    if table[i].valid && table[i].frameNumber >= 0 {
      assert a[i] == table[i];
    }
  }
}
