// Physical memory: a bounds-checked array of words divided into frames of tamPg words.

module PhysicalMemory {
  import opened Words

  /** `mem` after writing `page[i]` at `base + i` for i = 0, 1, ... in turn, where the first write
      outside [0, |mem|) throws and ends the sequence: nothing is written when `base` is negative,
      and a page running past the end is written up to the last position. */
  ghost function WriteRange(mem: seq<Word>, base: int, page: seq<Word>): (r: seq<Word>)
    ensures |r| == |mem|
  {
    seq(|mem|, a requires 0 <= a < |mem| =>
      if 0 <= base <= a < base + |page| then page[a - base] else mem[a])
  }

  /** Writing one more word of the page extends the written prefix by that word. */
  lemma WriteRangeStep(mem: seq<Word>, base: int, page: seq<Word>, k: int)
    requires 0 <= k < |page| && 0 <= base + k < |mem| && (0 < k ==> 0 <= base)
    ensures WriteRange(mem, base, page[..k])[base + k := page[k]] == WriteRange(mem, base, page[..k + 1])
  {
  }

  /** Once a write falls outside memory the sequence of writes has had all its effect. */
  lemma WriteRangeStop(mem: seq<Word>, base: int, page: seq<Word>, k: int)
    requires 0 <= k < |page| && !(0 <= base + k < |mem|) && (0 < k ==> 0 <= base && base + k <= |mem|)
    ensures WriteRange(mem, base, page[..k]) == WriteRange(mem, base, page)
  {
  }

  /** A page written wholly inside memory reads back as written, and every other word is left as it
      was. */
  lemma WrittenPageReadsBack(mem: seq<Word>, base: int, page: seq<Word>)
    requires 0 <= base && base + |page| <= |mem|
    ensures WriteRange(mem, base, page)[base .. base + |page|] == page
    ensures forall a :: 0 <= a < |mem| && !(base <= a < base + |page|) ==> WriteRange(mem, base, page)[a] == mem[a]
  {
  }

  class Memory {
    const tamMem: int
    const tamPg: int
    const nroFrames: int
    const pos: array<Word>

    ghost predicate Valid() {
      pos.Length == tamMem && tamPg > 0 && nroFrames == tamMem / tamPg
    }

    /** A memory of `tamMem` words in frames of `tamPg` words, every position holding `EmptyWord`. */
    constructor (tamMem: int, tamPg: int)
      requires tamMem >= 0 && tamPg > 0
      ensures Valid() && fresh(pos)
      ensures this.tamMem == tamMem && this.tamPg == tamPg && nroFrames == tamMem / tamPg
      ensures forall a :: 0 <= a < tamMem ==> pos[a] == EmptyWord
    {
      this.tamMem := tamMem;
      this.tamPg := tamPg;
      this.nroFrames := tamMem / tamPg;
      pos := new Word[tamMem];
      new;
      var i := 0;
      while i < pos.Length
        invariant 0 <= i <= pos.Length
        invariant forall a :: 0 <= a < i ==> pos[a] == EmptyWord
      {
        pos[i] := EmptyWord;
        i := i + 1;
      }
    }

    /** The word at a physical address; an address outside [0, tamMem) throws. */
    method Read(a: int) returns (r: Outcome<Word>)
      requires Valid()
      ensures r == if 0 <= a < tamMem then Returned(pos[a]) else Threw
    {
      if a < 0 || a >= tamMem {
        return Threw;
      }
      return Returned(pos[a]);
    }

    /** Stores `w` at a physical address; an address outside [0, tamMem) throws and changes nothing. */
    method Write(a: int, w: Word) returns (threw: bool)
      requires Valid()
      modifies pos
      ensures threw <==> !(0 <= a < tamMem)
      ensures pos[..] == if threw then old(pos[..]) else old(pos[..])[a := w]
    {
      if a < 0 || a >= tamMem {
        return true;
      }
      pos[a] := w;
      return false;
    }

    /** The tamPg words of frame `f`, read one by one; the first read outside memory throws. */
    method ReadFrame(f: int) returns (r: Outcome<seq<Word>>)
      requires Valid()
      ensures r.Returned? <==> 0 <= f * tamPg && f * tamPg + tamPg <= tamMem
      ensures r.Returned? ==> r.value == pos[f * tamPg .. f * tamPg + tamPg]
    {
      var start := f * tamPg;
      var page := new Word[tamPg];
      var i := 0;
      while i < tamPg
        invariant 0 <= i <= tamPg
        invariant 0 <= start || i == 0
        invariant 0 < i ==> start + i <= tamMem
        invariant forall k :: 0 <= k < i ==> page[k] == pos[start + k]
      {
        var w := Read(start + i);
        if w.Threw? {
          return Threw;
        }
        page[i] := w.value;
        i := i + 1;
      }
      return Returned(page[..]);
    }

    /** Writes `page` at `base`, `base + 1`, ... as the paging code's copy loops do, stopping at the
        first address outside memory; `threw` says whether that happened. */
    method WritePage(base: int, page: seq<Word>) returns (threw: bool)
      requires Valid()
      modifies pos
      ensures threw <==> |page| > 0 && !(0 <= base && base + |page| <= tamMem)
      ensures pos[..] == WriteRange(old(pos[..]), base, page)
    {
      var i := 0;
      while i < |page|
        invariant 0 <= i <= |page|
        invariant 0 < i ==> 0 <= base && base + i <= tamMem
        invariant pos[..] == WriteRange(old(pos[..]), base, page[..i])
      {
        threw := Write(base + i, page[i]);
        if threw {
          assert WriteRange(old(pos[..]), base, page[..i]) == WriteRange(old(pos[..]), base, page);
          return;
        }
        assert WriteRange(old(pos[..]), base, page[..i])[base + i := page[i]]
            == WriteRange(old(pos[..]), base, page[..i + 1]);
        i := i + 1;
      }
      assert page[..i] == page;
      threw := false;
    }
  }
}
