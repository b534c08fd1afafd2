// Frame allocation. MemoryManager is the allocator as shown: a boolean per frame, first-fit,
// all-or-nothing allocation with rollback. FrameTable is the per-frame table (occupancy, lock,
// owner) that the kernel's page-fault handling calls; its contracts state what the kernel relies on.

module FrameAllocator {
  import opened Words
  import opened Process

  // ---------------------------------------------------------------------------------------------
  // Specification of first-fit allocation over the frame map (true = occupied).

  /** Indices of the free frames of `s`, in increasing order. */
  function FreeIndices(s: seq<bool>): seq<int>
  {
    if s == [] then [] else FreeIndices(s[..|s| - 1]) + (if s[|s| - 1] then [] else [|s| - 1])
  }

  /** `s` with every frame listed in `t` marked occupied. */
  ghost function Occupy(s: seq<bool>, t: seq<int>): (r: seq<bool>)
    ensures |r| == |s|
  {
    seq(|s|, i requires 0 <= i < |s| => s[i] || i in t)
  }

  /** `s` with every frame listed in `t` marked free; entries outside the map are ignored. */
  ghost function Release(s: seq<bool>, t: seq<int>): (r: seq<bool>)
    ensures |r| == |s|
  {
    seq(|s|, i requires 0 <= i < |s| => s[i] && i !in t)
  }

  /** FreeIndices lists exactly the free frames, each once, in strictly increasing order. */
  lemma {:induction false} FreeIndicesSpec(s: seq<bool>)
    ensures forall k :: 0 <= k < |FreeIndices(s)| ==>
      0 <= FreeIndices(s)[k] < |s| && !s[FreeIndices(s)[k]]
    ensures forall j, k :: 0 <= j < k < |FreeIndices(s)| ==> FreeIndices(s)[j] < FreeIndices(s)[k]
    ensures forall i :: 0 <= i < |s| && !s[i] ==> i in FreeIndices(s)
  {
    if s != [] {
      var s' := s[..|s| - 1];
      FreeIndicesSpec(s');
      forall i | 0 <= i < |s| && !s[i]
        ensures i in FreeIndices(s)
      {
        if i < |s| - 1 {
          assert s'[i] == s[i];
        }
      }
    }
  }

  /** The free frames of a prefix are a prefix of the free frames. */
  lemma {:induction false} FreeIndicesPrefix(s: seq<bool>, i: nat)
    requires i <= |s|
    ensures |FreeIndices(s[..i])| <= |FreeIndices(s)|
    ensures FreeIndices(s)[..|FreeIndices(s[..i])|] == FreeIndices(s[..i])
  {
    if i < |s| {
      FreeIndicesPrefix(s[..|s| - 1], i);
      assert s[..|s| - 1][..i] == s[..i];
    } else {
      assert s[..i] == s;
    }
  }

  /** One more frame extends the free list by that frame when it is free. */
  lemma FreeIndicesStep(s: seq<bool>, i: nat)
    requires i < |s|
    ensures FreeIndices(s[..i + 1]) == FreeIndices(s[..i]) + (if s[i] then [] else [i])
  {
    assert s[..i + 1][..i] == s[..i];
  }

  /** After allocate's scan over the whole map, every frame is occupied or was listed as free. */
  lemma OccupiedBeforeRollback(s: seq<bool>, f: seq<bool>, t: seq<int>)
    requires |f| == |s| && t == FreeIndices(s)
    requires forall j :: 0 <= j < |f| ==> f[j]
    ensures forall j :: 0 <= j < |f| ==> f[j] == (s[j] || j in t)
  {
    FreeIndicesSpec(s);
  }

  /** A scan that stopped at `i`, having occupied every frame before it and none after, occupied
      exactly the free frames it listed. */
  lemma OccupyFirstFit(s: seq<bool>, i: nat, f: seq<bool>)
    requires i <= |s| == |f|
    requires forall j :: 0 <= j < i ==> f[j]
    requires forall j :: i <= j < |s| ==> f[j] == s[j]
    ensures f == Occupy(s, FreeIndices(s[..i]))
  {
    var t := FreeIndices(s[..i]);
    FreeIndicesSpec(s[..i]);
    forall j | 0 <= j < |s|
      ensures f[j] == Occupy(s, t)[j]
    {
      if j < i {
        assert s[..i][j] == s[j];
      } else {
        assert j !in t;
      }
    }
  }

  /** What a successful allocate returns: the lowest `n` free frames. They are pairwise distinct and
      strictly increasing, each was free before and is occupied after, no other frame changes, and
      every free frame that was passed over lies above all of them (first fit). */
  lemma FirstFitChoice(s: seq<bool>, n: nat)
    requires n <= |FreeIndices(s)|
    ensures var t := FreeIndices(s)[..n];
      |t| == n &&
      (forall j, k :: 0 <= j < k < n ==> t[j] < t[k]) &&
      (forall k :: 0 <= k < n ==> 0 <= t[k] < |s| && !s[t[k]] && Occupy(s, t)[t[k]]) &&
      (forall i :: 0 <= i < |s| && i !in t ==> Occupy(s, t)[i] == s[i]) &&
      (forall i, k :: 0 <= i < |s| && !s[i] && i !in t && 0 <= k < n ==> t[k] < i)
  {
    var t := FreeIndices(s)[..n];
    FreeIndicesSpec(s);
    forall i, k | 0 <= i < |s| && !s[i] && i !in t && 0 <= k < n
      ensures t[k] < i
    {
      var m :| 0 <= m < |FreeIndices(s)| && FreeIndices(s)[m] == i;
      assert m >= n;
    }
  }

  /** Releasing what first fit occupied restores the frame map: deallocate(allocate(w)). */
  lemma ReleaseUndoesOccupy(s: seq<bool>, n: nat)
    requires n <= |FreeIndices(s)|
    ensures Release(Occupy(s, FreeIndices(s)[..n]), FreeIndices(s)[..n]) == s
  {
    var t := FreeIndices(s)[..n];
    FreeIndicesSpec(s);
    forall i | 0 <= i < |s|
      ensures Release(Occupy(s, t), t)[i] == s[i]
    {
      if i in t {
        var k :| 0 <= k < n && t[k] == i;
        assert !s[i];
      }
    }
  }

  class MemoryManager {
    const memSize: int
    const pgSize: int
    const frameQuantity: int
    /** frames[i] is true when frame i is occupied. */
    const frames: array<bool>
    const pos: array<Word>

    ghost predicate Valid() {
      pgSize > 0 && memSize >= 0 && frameQuantity == memSize / pgSize &&
      frames.Length == frameQuantity && pos.Length == memSize
    }

    /** memSize / pgSize frames, all free; every position holds the zero datum. */
    constructor (memSize: int, pgSize: int)
      requires memSize >= 0 && pgSize > 0
      ensures Valid() && fresh(frames) && fresh(pos)
      ensures this.memSize == memSize && this.pgSize == pgSize
      ensures frameQuantity == memSize / pgSize
      ensures forall i :: 0 <= i < frameQuantity ==> !frames[i]
      ensures forall a :: 0 <= a < memSize ==> pos[a] == ZeroWord
    {
      this.memSize := memSize;
      this.pgSize := pgSize;
      frameQuantity := memSize / pgSize;
      frames := new bool[memSize / pgSize](_ => false);
      pos := new Word[memSize];
      new;
      var i := 0;
      while i < memSize
        invariant 0 <= i <= memSize
        invariant forall a :: 0 <= a < i ==> pos[a] == ZeroWord
        invariant forall f :: 0 <= f < frameQuantity ==> !frames[f]
      {
        pos[i] := ZeroWord;
        i := i + 1;
      }
    }

    /** Allocates ceil(wordSize / pgSize) frames, first fit, or none at all: with too few free frames
        the partial allocation is rolled back and null (None) is returned. */
    method Allocate(wordSize: int) returns (r: Option<seq<int>>)
      requires Valid() && wordSize >= 0
      modifies frames
      ensures var n := CeilDiv(wordSize, pgSize);
        var free := FreeIndices(old(frames[..]));
        if n <= |free| then r == Some(free[..n]) && frames[..] == Occupy(old(frames[..]), free[..n])
        else r == None && frames[..] == old(frames[..])
    {
      ghost var s := frames[..];
      var pgNumber := CeilDiv(wordSize, pgSize);
      var pgTable := new int[pgNumber];
      var count := 0;
      var i := 0;
      while i < frameQuantity && count < pgNumber
        invariant 0 <= i <= frameQuantity && count <= pgNumber
        invariant pgTable[..count] == FreeIndices(s[..i])
        invariant forall j :: 0 <= j < i ==> frames[j]
        invariant forall j :: i <= j < frameQuantity ==> frames[j] == s[j]
      {
        FreeIndicesStep(s, i);
        if !frames[i] {
          frames[i] := true;
          pgTable[count] := i;
          assert pgTable[..count + 1] == pgTable[..count] + [i];
          count := count + 1;
        }
        i := i + 1;
      }
      FreeIndicesPrefix(s, i);
      if count < pgNumber {
        assert s[..i] == s;
        OccupiedBeforeRollback(s, frames[..], pgTable[..count]);
        Rollback(pgTable, count, s);
        return None;
      }
      assert pgTable[..] == pgTable[..count];
      OccupyFirstFit(s, i, frames[..]);
      return Some(pgTable[..]);
    }

    /** The rollback loop of allocate: frees every frame listed in pgTable[..count]. */
    method Rollback(pgTable: array<int>, count: int, ghost s: seq<bool>)
      requires Valid() && 0 <= count <= pgTable.Length && |s| == frameQuantity
      requires pgTable[..count] == FreeIndices(s)
      requires forall j :: 0 <= j < frameQuantity ==> frames[j] == (s[j] || j in pgTable[..count])
      modifies frames
      ensures frames[..] == s
    {
      FreeIndicesSpec(s);
      var k := 0;
      while k < count
        invariant 0 <= k <= count
        invariant forall j :: 0 <= j < frameQuantity ==> frames[j] == (s[j] || j in pgTable[k..count])
      {
        assert pgTable[k] == FreeIndices(s)[k];
        forall j | k + 1 <= j < count
          ensures pgTable[k] < pgTable[j]
        {
          assert pgTable[j] == FreeIndices(s)[j];
        }
        frames[pgTable[k]] := false;
        k := k + 1;
      }
    }

    /** Frees every in-range frame listed in the table; a null or empty table is refused (false). */
    method Deallocate(pgTable: Option<seq<int>>) returns (ok: bool)
      requires Valid()
      modifies frames
      ensures ok <==> pgTable.Some? && |pgTable.value| > 0
      ensures frames[..] == if ok then Release(old(frames[..]), pgTable.value) else old(frames[..])
    {
      if pgTable.None? || |pgTable.value| == 0 {
        return false;
      }
      var t := pgTable.value;
      var i := 0;
      while i < |t|
        invariant 0 <= i <= |t|
        invariant forall j :: 0 <= j < frameQuantity ==> frames[j] == (old(frames[j]) && j !in t[..i])
      {
        var frameIndex := t[i];
        if frameIndex >= 0 && frameIndex < frames.Length {
          frames[frameIndex] := false;
        }
        assert t[..i + 1] == t[..i] + [t[i]];
        i := i + 1;
      }
      assert t[..i] == t;
      return true;
    }

    /** Stores the datum `valor` at `endereco`; an address outside memory is refused (false). */
    method Write(endereco: int, valor: Int32) returns (ok: bool)
      requires Valid()
      modifies pos
      ensures ok <==> 0 <= endereco < memSize
      ensures pos[..] == if ok then old(pos[..])[endereco := Word(DATA, 0, 0, valor)] else old(pos[..])
    {
      if endereco < 0 || endereco >= pos.Length {
        return false;
      }
      pos[endereco] := Word(DATA, 0, 0, valor);
      return true;
    }
  }

  /** Which page of which process a frame holds. */
  datatype FrameInfo = FrameInfo(owner: PCB, pageNumber: int)

  /** The frame table the kernel's paging calls (allocateFrame, selectVictim, lockFrame,
      unlockFrame, assignFrame, getFrameOwner, deallocateFrame). */
  class FrameTable {
    const frameQuantity: nat
    var occupied: seq<bool>
    /** A locked frame is reserved for an in-flight load and is never chosen as a victim. */
    var locked: seq<bool>
    var owners: map<int, FrameInfo>

    ghost predicate Valid()
      reads this
    {
      |occupied| == frameQuantity && |locked| == frameQuantity &&
      forall f :: f in owners ==> 0 <= f < frameQuantity
    }

    /** All memSize / pgSize frames free, unlocked and unowned. */
    constructor (memSize: int, pgSize: int)
      requires memSize >= 0 && pgSize > 0
      ensures Valid() && frameQuantity == memSize / pgSize
      ensures occupied == seq(frameQuantity, _ => false) && locked == seq(frameQuantity, _ => false)
      ensures owners == map[]
    {
      frameQuantity := memSize / pgSize;
      occupied := seq(memSize / pgSize, _ => false);
      locked := seq(memSize / pgSize, _ => false);
      owners := map[];
    }

    /** A free frame now owned by (pcb, pageNumber), or a negative result and no change when there
        is none. */
    method AllocateFrame(pcb: PCB, pageNumber: int) returns (f: int)
      requires Valid()
      modifies this
      ensures Valid()
      ensures f < 0 ==> occupied == old(occupied) && locked == old(locked) && owners == old(owners)
      ensures f < 0 ==> forall g :: 0 <= g < frameQuantity ==> occupied[g] || locked[g]
      ensures f >= 0 ==> (f < frameQuantity && !old(occupied)[f] && !locked[f] &&
        occupied == old(occupied)[f := true] && locked == old(locked) &&
        owners == old(owners)[f := FrameInfo(pcb, pageNumber)])
      ensures f >= 0 ==> forall g :: 0 <= g < f ==> occupied[g] || locked[g]
    {
      f := 0;
      while f < frameQuantity
        invariant 0 <= f <= frameQuantity
        invariant forall g :: 0 <= g < f ==> occupied[g] || locked[g]
      {
        if !occupied[f] && !locked[f] {
          occupied := occupied[f := true];
          owners := owners[f := FrameInfo(pcb, pageNumber)];
          return;
        }
        f := f + 1;
      }
      f := -1;
    }

    /** An occupied, unlocked frame to evict, or a negative result when there is none. */
    method SelectVictim() returns (f: int)
      requires Valid()
      ensures f < 0 <==> forall g :: 0 <= g < frameQuantity ==> !occupied[g] || locked[g]
      ensures f >= 0 ==> f < frameQuantity && occupied[f] && !locked[f]
      ensures f >= 0 ==> forall g :: 0 <= g < f ==> !occupied[g] || locked[g]
    {
      f := 0;
      while f < frameQuantity
        invariant 0 <= f <= frameQuantity
        invariant forall g :: 0 <= g < f ==> !occupied[g] || locked[g]
      {
        if occupied[f] && !locked[f] {
          return;
        }
        f := f + 1;
      }
      f := -1;
    }

    /** The owner recorded for frame `f`, if any. */
    function GetFrameOwner(f: int): (info: Option<FrameInfo>)
      reads this
      ensures info.Some? <==> f in owners
      ensures info.Some? ==> info.value == owners[f]
    {
      if f in owners then Some(owners[f]) else None
    }

    method LockFrame(f: int)
      requires Valid()
      modifies this
      ensures Valid()
      ensures occupied == old(occupied) && owners == old(owners)
      ensures locked == if 0 <= f < frameQuantity then old(locked)[f := true] else old(locked)
    {
      if 0 <= f < frameQuantity {
        locked := locked[f := true];
      }
    }

    method UnlockFrame(f: int)
      requires Valid()
      modifies this
      ensures Valid()
      ensures occupied == old(occupied) && owners == old(owners)
      ensures locked == if 0 <= f < frameQuantity then old(locked)[f := false] else old(locked)
    {
      if 0 <= f < frameQuantity {
        locked := locked[f := false];
      }
    }

    /** Binds frame `f` (in range) to (pcb, pageNumber), marking it occupied. */
    method AssignFrame(f: int, pcb: PCB, pageNumber: int)
      requires Valid() && 0 <= f < frameQuantity
      modifies this
      ensures Valid()
      ensures occupied == old(occupied)[f := true] && locked == old(locked)
      ensures owners == old(owners)[f := FrameInfo(pcb, pageNumber)]
    {
      occupied := occupied[f := true];
      owners := owners[f := FrameInfo(pcb, pageNumber)];
    }

    /** Frees frame `f` and forgets its owner; an out-of-range frame changes nothing. */
    method DeallocateFrame(f: int)
      requires Valid()
      modifies this
      ensures Valid()
      ensures occupied == if 0 <= f < frameQuantity then old(occupied)[f := false] else old(occupied)
      ensures locked == old(locked) && owners == old(owners) - {f}
    {
      if 0 <= f < frameQuantity {
        occupied := occupied[f := false];
      }
      owners := owners - {f};
    }
  }
}
