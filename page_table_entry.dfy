// One entry of a process's page table: where the page is (a frame, a disk address, or nowhere yet).

module PageTable {
  import opened Text

  /** frameNumber is -1 when the page is not in memory; diskAddress is -1 until the page has been
      saved to disk; lastAccessTime is a clock reading the model leaves unconstrained. */
  datatype PageTableEntry = PageTableEntry(
    frameNumber: int, valid: bool, modified: bool, diskAddress: int, lastAccessTime: int)

  /** Where toString places an entry. */
  datatype Location = Resident | OnDisk | NotLoaded

  /** `new PageTableEntry()`: a page that was never loaded. */
  function NotLoadedEntry(): (e: PageTableEntry)
    ensures e.frameNumber == -1 && !e.valid && !e.modified && e.diskAddress == -1
    ensures Locate(e) == NotLoaded && ToString(e) == "not_loaded"
  {
    PageTableEntry(-1, false, false, -1, 0)
  }

  /** `new PageTableEntry(frameNumber)` at clock reading `now`: a page just mapped to a frame. */
  function ResidentEntry(frameNumber: int, now: int): (e: PageTableEntry)
    ensures e.frameNumber == frameNumber && e.valid && !e.modified && e.diskAddress == -1
    ensures Locate(e) == Resident
  {
    PageTableEntry(frameNumber, true, false, -1, now)
  }

  /** The three-way classification toString makes. */
  function Locate(e: PageTableEntry): Location {
    if e.valid then Resident else if e.diskAddress >= 0 then OnDisk else NotLoaded
  }

  function BoolToString(b: bool): string {
    if b then "true" else "false"
  }

  function ToString(e: PageTableEntry): string {
    if e.valid then
      "frame=" + IntToString(e.frameNumber) + ", valid=true, modified=" + BoolToString(e.modified)
    else if e.diskAddress >= 0 then
      "disk=" + IntToString(e.diskAddress) + ", valid=false"
    else
      "not_loaded"
  }

  /** The rendering names exactly one location, recognisable from its first characters, and the
      location depends on `valid` first: a resident page is reported resident even when it also has
      a disk address. */
  lemma ToStringClassifies(e: PageTableEntry)
    ensures Locate(e) == Resident <==> e.valid
    ensures Locate(e) == OnDisk <==> !e.valid && e.diskAddress >= 0
    ensures Locate(e) == NotLoaded <==> !e.valid && e.diskAddress < 0
    ensures Locate(e) == Resident <==> |ToString(e)| >= 6 && ToString(e)[..6] == "frame="
    ensures Locate(e) == OnDisk <==> |ToString(e)| >= 5 && ToString(e)[..5] == "disk="
    ensures Locate(e) == NotLoaded <==> ToString(e) == "not_loaded"
  {
    var s := ToString(e);
    if e.valid {
      assert s[..6] == "frame=";
      assert s[..5] != "disk=" by { assert s[0] == 'f'; }
      assert s != "not_loaded" by { assert s[0] == 'f'; }
    } else if e.diskAddress >= 0 {
      assert s[..5] == "disk=";
      assert s[..6] != "frame=" by { assert s[0] == 'd'; }
      assert s != "not_loaded" by { assert s[0] == 'd'; }
    } else {
      assert s[..6] != "frame=" by { assert s[0] == 'n'; }
      assert s[..5] != "disk=" by { assert s[0] == 'n'; }
    }
  }
}
