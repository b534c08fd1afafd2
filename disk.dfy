// The swap disk: a fixed table of slots, each holding one page, with a used flag per slot.
// Page-in and page-out requests are modelled as the sequential bodies the disk's single worker
// runs; the listener notification they end with is returned to the caller.

module SwapDisk {
  import opened Words

  /** A snapshot of the disk: the page held by each slot (None for a null slot) and the used
      flags. */
  datatype Store = Store(slots: seq<Option<seq<Word>>>, used: seq<bool>)

  /** The table shapes agree and every used slot holds a page. */
  predicate StoreOk(s: Store) {
    |s.slots| == |s.used| && forall i :: 0 <= i < |s.used| && s.used[i] ==> s.slots[i].Some?
  }

  /** The lowest unused slot, -1 when every slot is used. */
  function FirstUnused(used: seq<bool>): (r: int)
    ensures -1 <= r < |used|
    ensures r >= 0 ==> !used[r] && forall j :: 0 <= j < r ==> used[j]
    ensures r == -1 <==> forall j :: 0 <= j < |used| ==> used[j]
  {
    if used == [] then -1
    else if !used[0] then 0
    else
      var rest := FirstUnused(used[1..]);
      if rest < 0 then -1 else rest + 1
  }

  /** The first-fit scan's stopping point is the lowest unused slot. */
  lemma {:induction false} FirstUnusedAt(used: seq<bool>, i: int)
    requires 0 <= i < |used| && !used[i] && forall j :: 0 <= j < i ==> used[j]
    ensures FirstUnused(used) == i
  {
    if i > 0 {
      FirstUnusedAt(used[1..], i - 1);
    }
  }

  /** allocateSlot: the lowest unused slot becomes used and, when it was null, receives an empty
      page; -1 and no change when the disk is full. */
  function AllocateSpec(s: Store, pageSize: nat): (r: (Store, int))
    requires StoreOk(s)
    ensures StoreOk(r.0)
    ensures r.1 == -1 <==> forall j :: 0 <= j < |s.used| ==> s.used[j]
    ensures r.1 == -1 ==> r.0 == s
    ensures r.1 >= 0 ==>
      r.1 < |s.used| && !s.used[r.1] && (forall j :: 0 <= j < r.1 ==> s.used[j]) &&
      r.0.used == s.used[r.1 := true] &&
      r.0.slots == s.slots[r.1 := if s.slots[r.1].None? then Some(Pad(pageSize)) else s.slots[r.1]]
  {
    var i := FirstUnused(s.used);
    if i < 0 then (s, -1)
    else
      var page := if s.slots[i].None? then Some(Pad(pageSize)) else s.slots[i];
      (Store(s.slots[i := page], s.used[i := true]), i)
  }

  /** freeSlot: an in-range slot becomes unused and null; other indices change nothing. */
  function FreeSpec(s: Store, idx: int): (t: Store)
    requires StoreOk(s)
    ensures StoreOk(t) && |t.used| == |s.used|
    ensures 0 <= idx < |s.used| ==> !t.used[idx] && t.slots[idx].None?
    ensures forall j :: 0 <= j < |s.used| && j != idx ==> t.used[j] == s.used[j] && t.slots[j] == s.slots[j]
  {
    if 0 <= idx < |s.used| then Store(s.slots[idx := None], s.used[idx := false]) else s
  }

  /** readSlotSync: the page in a used in-range slot, None otherwise. */
  function ReadSpec(s: Store, idx: int): (r: Option<seq<Word>>)
    requires StoreOk(s)
    ensures r.Some? <==> 0 <= idx < |s.used| && s.used[idx]
    ensures r.Some? ==> s.slots[idx] == r
  {
    if idx < 0 || idx >= |s.slots| || !s.used[idx] then None else s.slots[idx]
  }

  /** writeSlotSync: an in-range slot receives the data and becomes used; other indices change
      nothing. */
  function WriteSpec(s: Store, idx: int, data: seq<Word>): (t: Store)
    requires StoreOk(s)
    ensures StoreOk(t) && |t.used| == |s.used|
    ensures 0 <= idx < |s.used| ==> t.used[idx] && t.slots[idx] == Some(data)
    ensures forall j :: 0 <= j < |s.used| && j != idx ==> t.used[j] == s.used[j] && t.slots[j] == s.slots[j]
  {
    if idx < 0 || idx >= |s.slots| then s else Store(s.slots[idx := Some(data)], s.used[idx := true])
  }

  /** The worker's body for a page-out: a negative slot asks for a fresh one; when one is found
      (or given) the page is stored there, otherwise nothing is stored and -1 is reported. A given
      slot past the table's end throws inside the worker and nothing is reported. The second
      component is the slot reported to the listener, if one is. */
  function PageOutSpec(s: Store, pageSize: nat, pageData: seq<Word>, diskSlot: int, hasListener: bool)
    : (r: (Store, Option<int>))
    requires StoreOk(s)
    ensures StoreOk(r.0)
  {
    if diskSlot < 0 then
      var (s', slot) := AllocateSpec(s, pageSize);
      if slot >= 0 then
        (WriteSpec(s', slot, pageData), if hasListener then Some(slot) else None)
      else
        (s', if hasListener then Some(-1) else None)
    else if diskSlot < |s.slots| then
      (WriteSpec(s, diskSlot, pageData), if hasListener then Some(diskSlot) else None)
    else
      (s, None)
  }

  /** A write followed by a read of the same in-range slot gives back the data. */
  lemma WriteThenRead(s: Store, idx: int, data: seq<Word>)
    requires StoreOk(s) && 0 <= idx < |s.used|
    ensures ReadSpec(WriteSpec(s, idx, data), idx) == Some(data)
  {
  }

  /** A freed slot reads as nothing. */
  lemma FreeThenRead(s: Store, idx: int)
    requires StoreOk(s)
    ensures ReadSpec(FreeSpec(s, idx), idx) == None
  {
  }

  /** A freshly allocated slot that was null reads back as a page of filler words. */
  lemma AllocatedSlotIsEmptyPage(s: Store, pageSize: nat)
    requires StoreOk(s)
    requires AllocateSpec(s, pageSize).1 >= 0 && s.slots[AllocateSpec(s, pageSize).1].None?
    ensures ReadSpec(AllocateSpec(s, pageSize).0, AllocateSpec(s, pageSize).1) == Some(Pad(pageSize))
  {
  }

  /** Page-out with no slot given on a full disk stores nothing and reports slot -1. */
  lemma PageOutDiskFull(s: Store, pageSize: nat, pageData: seq<Word>, diskSlot: int)
    requires StoreOk(s) && diskSlot < 0 && forall j :: 0 <= j < |s.used| ==> s.used[j]
    ensures PageOutSpec(s, pageSize, pageData, diskSlot, true) == (s, Some(-1))
  {
  }

  /** Page-out to a given slot overwrites that slot, marks it used, reports it, and the page reads
      back from it. */
  lemma PageOutGivenSlot(s: Store, pageSize: nat, pageData: seq<Word>, diskSlot: int)
    requires StoreOk(s) && 0 <= diskSlot < |s.used|
    ensures PageOutSpec(s, pageSize, pageData, diskSlot, true).1 == Some(diskSlot)
    ensures ReadSpec(PageOutSpec(s, pageSize, pageData, diskSlot, true).0, diskSlot) == Some(pageData)
  {
  }

  /** Page-out with no slot given on a disk with room stores the page in the lowest unused slot,
      from which it reads back. */
  lemma PageOutFreshSlot(s: Store, pageSize: nat, pageData: seq<Word>, diskSlot: int)
    requires StoreOk(s) && diskSlot < 0 && exists j :: 0 <= j < |s.used| && !s.used[j]
    ensures PageOutSpec(s, pageSize, pageData, diskSlot, true).1 == Some(FirstUnused(s.used))
    ensures ReadSpec(PageOutSpec(s, pageSize, pageData, diskSlot, true).0, FirstUnused(s.used)) == Some(pageData)
  {
  }

  class Disk {
    const slots: array<Option<seq<Word>>>
    const used: array<bool>
    const pageSize: nat
    /** Whether a listener was given; requests report their completion to it. */
    const hasListener: bool

    ghost function State(): Store
      reads this, slots, used
    {
      Store(slots[..], used[..])
    }

    ghost predicate Valid()
      reads this, slots, used
    {
      StoreOk(State())
    }

    /** A disk of `numSlots` null, unused slots. */
    constructor (numSlots: nat, pageSize: nat, hasListener: bool)
      ensures Valid() && fresh(slots) && fresh(used)
      ensures State() == Store(seq(numSlots, _ => None), seq(numSlots, _ => false))
      ensures this.pageSize == pageSize && this.hasListener == hasListener
    {
      slots := new Option<seq<Word>>[numSlots](_ => None);
      used := new bool[numSlots](_ => false);
      this.pageSize := pageSize;
      this.hasListener := hasListener;
    }

    /** A fresh page of `pageSize` filler words. */
    method EmptyPage() returns (page: seq<Word>)
      ensures |page| == pageSize
      ensures forall i :: 0 <= i < pageSize ==> page[i] == PadWord
    {
      var a := new Word[pageSize];
      var i := 0;
      while i < pageSize
        invariant 0 <= i <= pageSize
        invariant forall k :: 0 <= k < i ==> a[k] == PadWord
      {
        a[i] := Word(DATA, -1, -1, -1);
        i := i + 1;
      }
      page := a[..];
    }

    method AllocateSlot() returns (i: int)
      requires Valid()
      modifies slots, used
      ensures Valid()
      ensures (State(), i) == AllocateSpec(old(State()), pageSize)
    {
      ghost var s0 := State();
      i := 0;
      while i < used.Length
        invariant 0 <= i <= used.Length
        invariant forall j :: 0 <= j < i ==> used[j]
      {
        if !used[i] {
          FirstUnusedAt(s0.used, i);
          used[i] := true;
          if slots[i].None? {
            var page := EmptyPage();
            assert page == Pad(pageSize);
            slots[i] := Some(page);
          }
          assert used[..] == s0.used[i := true];
          assert slots[..] == s0.slots[i := if s0.slots[i].None? then Some(Pad(pageSize)) else s0.slots[i]];
          return;
        }
        i := i + 1;
      }
      return -1;
    }

    method FreeSlot(idx: int)
      requires Valid()
      modifies slots, used
      ensures Valid()
      ensures State() == FreeSpec(old(State()), idx)
    {
      if idx >= 0 && idx < used.Length {
        used[idx] := false;
        slots[idx] := None;
      }
    }

    method ReadSlotSync(idx: int) returns (r: Option<seq<Word>>)
      requires Valid()
      ensures r == ReadSpec(State(), idx)
    {
      if idx < 0 || idx >= slots.Length || !used[idx] {
        return None;
      }
      return slots[idx];
    }

    method WriteSlotSync(idx: int, data: seq<Word>)
      requires Valid()
      modifies slots, used
      ensures Valid()
      ensures State() == WriteSpec(old(State()), idx, data)
    {
      if idx < 0 || idx >= slots.Length {
        return;
      }
      slots[idx] := Some(data);
      used[idx] := true;
    }

    /** The page-out worker body; `notified` is the slot passed to the listener, if it is called. */
    method RequestPageOut(victimPid: int, victimPageNumber: int, pageData: seq<Word>, diskSlot: int)
      returns (notified: Option<int>)
      requires Valid()
      modifies slots, used
      ensures Valid()
      ensures (State(), notified) == PageOutSpec(old(State()), pageSize, pageData, diskSlot, hasListener)
    {
      var slot := diskSlot;
      if slot < 0 {
        slot := AllocateSlot();
      }
      if slot >= 0 {
        if slot >= slots.Length {
          return None;
        }
        slots[slot] := Some(pageData);
        used[slot] := true;
      } else {
        return if hasListener then Some(-1) else None;
      }
      return if hasListener then Some(slot) else None;
    }

    /** The page-in worker body: the page it reads is never handed on, so all that is observable
        is whether the listener is called, which fails to happen when the slot index is past the
        table's end. */
    method RequestPageIn(pageNumber: int, frameIndex: int, diskSlot: int) returns (notified: bool)
      requires Valid()
      ensures notified <==> hasListener && diskSlot < slots.Length
    {
      if diskSlot >= slots.Length {
        return false;
      }
      return hasListener;
    }
  }
}
