// The process-state log: one line per state change, ending with a compact rendering of the
// process's page table. Only the text of the line is modelled; appending it to the log file and
// reading the clock are not.

module StateLog {
  import opened Words
  import opened Text
  import opened PageTable
  import opened Process

  /** The entry counts as in main memory. */
  predicate InMainMemory(e: PageTableEntry) {
    e.valid && e.frameNumber >= 0
  }

  /** The frame column: the frame number for a page in main memory, "-" otherwise. */
  function FramePart(e: PageTableEntry): (s: string)
    ensures s == "-" <==> !InMainMemory(e)
    ensures InMainMemory(e) ==> forall k :: 0 <= k < |s| ==> '0' <= s[k] <= '9'
  {
    if InMainMemory(e) then IntToString(e.frameNumber) else "-"
  }

  /** The location column: main memory, secondary memory (disk) or never loaded. */
  function LocationPart(e: PageTableEntry): (loc: string)
    ensures loc == "mp" <==> InMainMemory(e)
    ensures loc == "ms" <==> !InMainMemory(e) && e.diskAddress >= 0
    ensures loc == "--" <==> !InMainMemory(e) && e.diskAddress < 0
  {
    if InMainMemory(e) then "mp" else if e.diskAddress >= 0 then "ms" else "--"
  }

  /** "[i,frame,loc]" for entry `i`. */
  function RenderEntry(i: nat, e: PageTableEntry): string {
    "[" + NatToString(i) + "," + FramePart(e) + "," + LocationPart(e) + "]"
  }

  /** The text the loop appends for the first `n` entries: a null entry adds nothing, any other
      entry adds ", " when its index is not 0, then its rendering. */
  function Entries(table: seq<Option<PageTableEntry>>, n: nat): string
    requires n <= |table|
    decreases n
  {
    if n == 0 then ""
    else
      var prefix := Entries(table, n - 1);
      match table[n - 1]
      case None => prefix
      case Some(e) => prefix + (if n - 1 > 0 then ", " else "") + RenderEntry(n - 1, e)
  }

  /** formatPageTable: "{}" for a missing or empty table, otherwise the entries between braces. */
  function FormatPageTable(table: Option<seq<Option<PageTableEntry>>>): (s: string)
    ensures table.None? || table.value == [] ==> s == "{}"
    ensures |s| >= 2 && s[0] == '{' && s[|s| - 1] == '}'
  {
    if table.None? || |table.value| == 0 then "{}"
    else "{" + Entries(table.value, |table.value|) + "}"
  }

  /** Occurrences of `c` in `s`. */
  function Count(s: string, c: char): nat {
    if s == [] then 0 else (if s[0] == c then 1 else 0) + Count(s[1..], c)
  }

  lemma {:induction false} CountConcat(a: string, b: string, c: char)
    ensures Count(a + b, c) == Count(a, c) + Count(b, c)
  {
    if a == [] {
      assert a + b == b;
    } else {
      assert (a + b)[1..] == a[1..] + b;
      CountConcat(a[1..], b, c);
    }
  }

  lemma {:induction false} CountNone(s: string, c: char)
    requires forall k :: 0 <= k < |s| ==> s[k] != c
    ensures Count(s, c) == 0
  {
    if s != [] {
      CountNone(s[1..], c);
    }
  }

  /** Non-null entries among the first `n`. */
  function Present(table: seq<Option<PageTableEntry>>, n: nat): nat
    requires n <= |table|
    decreases n
  {
    if n == 0 then 0 else Present(table, n - 1) + (if table[n - 1].Some? then 1 else 0)
  }

  /** Every entry's rendering opens exactly one bracket. */
  lemma OneBracketPerEntry(i: nat, e: PageTableEntry)
    ensures Count(RenderEntry(i, e), '[') == 1
  {
    var idx := NatToString(i);
    var fp := FramePart(e);
    var lp := LocationPart(e);
    CountNone(idx, '[');
    if InMainMemory(e) {
      CountNone(fp, '[');
    } else {
      assert fp == "-";
      CountNone(fp, '[');
    }
    CountNone(lp, '[');
    CountNone(",", '[');
    CountNone("]", '[');
    assert Count("[", '[') == 1;
    CountConcat("[", idx, '[');
    CountConcat("[" + idx, ",", '[');
    CountConcat("[" + idx + ",", fp, '[');
    CountConcat("[" + idx + "," + fp, ",", '[');
    CountConcat("[" + idx + "," + fp + ",", lp, '[');
    CountConcat("[" + idx + "," + fp + "," + lp, "]", '[');
  }

  /** The rendering holds one bracketed item per non-null entry: null entries leave no trace. */
  lemma {:induction false} OneItemPerPresentEntry(table: seq<Option<PageTableEntry>>, n: nat)
    requires n <= |table|
    ensures Count(Entries(table, n), '[') == Present(table, n)
    decreases n
  {
    if n > 0 {
      OneItemPerPresentEntry(table, n - 1);
      if table[n - 1].Some? {
        var sep := if n - 1 > 0 then ", " else "";
        CountNone(sep, '[');
        OneBracketPerEntry(n - 1, table[n - 1].value);
        CountConcat(Entries(table, n - 1), sep, '[');
        CountConcat(Entries(table, n - 1) + sep, RenderEntry(n - 1, table[n - 1].value), '[');
      }
    }
  }

  /** Because the separator depends on the index and not on what was rendered before, a null
      first entry leaves a leading ", " right after the brace. */
  lemma NullFirstEntryLeavesLeadingSeparator(e: PageTableEntry)
    ensures FormatPageTable(Some([None, Some(e)])) == "{, " + RenderEntry(1, e) + "}"
  {
    var t := [None, Some(e)];
    assert Entries(t, 1) == "";
  }

  /** A table with entries but none present renders as "{}" all the same. */
  lemma {:induction false} AllNullIsEmpty(table: seq<Option<PageTableEntry>>, n: nat)
    requires n <= |table| && forall k :: 0 <= k < |table| ==> table[k].None?
    ensures Entries(table, n) == ""
    decreases n
  {
    if n > 0 {
      AllNullIsEmpty(table, n - 1);
    }
  }

  function StateName(s: ProcState): string {
    match s
    case NEW => "NEW"
    case READY => "READY"
    case RUNNING => "RUNNING"
    case BLOCKED => "BLOCKED"
    case TERMINATED => "TERMINATED"
  }

  /** The table as the logger sees it: an array whose slots could each be null. */
  function AsNullable(pageTable: Option<seq<PageTableEntry>>): Option<seq<Option<PageTableEntry>>> {
    if pageTable.None? then None
    else Some(seq(|pageTable.value|, k requires 0 <= k < |pageTable.value| => Some(pageTable.value[k])))
  }

  /** The reason column: the reason, or "-" when there is none. */
  function ReasonText(reason: Option<string>): string {
    if reason.Some? then reason.value else "-"
  }

  /** A state column: the state's name, or "NULL" when there is none. */
  function StateText(s: Option<ProcState>): (t: string)
    ensures forall k :: 0 <= k < |t| ==> 'A' <= t[k] <= 'Z'
  {
    if s.Some? then StateName(s.value) else "NULL"
  }

  /** Every page of a table the logger receives is present, so the rendering holds one bracketed
      item per page. */
  lemma {:induction false} AllPresent(table: seq<Option<PageTableEntry>>, n: nat)
    requires n <= |table| && forall k :: 0 <= k < |table| ==> table[k].Some?
    ensures Present(table, n) == n
    decreases n
  {
    if n > 0 {
      AllPresent(table, n - 1);
    }
  }

  /** The page-table rendering opens exactly one bracket per page of the table. */
  lemma FormatItems(pageTable: Option<seq<PageTableEntry>>)
    ensures Count(FormatPageTable(AsNullable(pageTable)), '[') ==
      (if pageTable.None? then 0 else |pageTable.value|)
  {
    var table := AsNullable(pageTable);
    CountNone("{", '[');
    CountNone("}", '[');
    if table.None? || |table.value| == 0 {
      CountConcat("{", "}", '[');
      assert "{" + "}" == "{}";
    } else {
      var entries := Entries(table.value, |table.value|);
      OneItemPerPresentEntry(table.value, |table.value|);
      AllPresent(table.value, |table.value|);
      CountConcat("{", entries, '[');
      CountConcat("{" + entries, "}", '[');
    }
  }

  /** A line made of bracket-free text followed by the page-table rendering opens one bracket per
      page of the table. */
  lemma ItemsInLine(text: string, pageTable: Option<seq<PageTableEntry>>)
    requires '[' !in text
    ensures Count(text + FormatPageTable(AsNullable(pageTable)), '[') ==
      (if pageTable.None? then 0 else |pageTable.value|)
  {
    CountNone(text, '[');
    CountConcat(text, FormatPageTable(AsNullable(pageTable)), '[');
    FormatItems(pageTable);
  }

  /** The three parts of a line can be read back from it. */
  lemma Parts(head: string, mid: string, tail: string)
    ensures var l := head + mid + tail;
      |head| + |tail| <= |l| && l[..|head|] == head && l[|l| - |tail|..] == tail &&
      l[|head|..|l| - |tail|] == mid
  {
    var l := head + mid + tail;
    assert l[..|head|] == head;
    assert l[|l| - |tail|..] == tail;
    assert l[|head|..|l| - |tail|] == mid;
  }

  /** log: nothing for a null process. Otherwise the line begins with the timestamp, the pid and
      the name, each followed by " ; ", then holds the reason (or "-") and the two states (or
      "NULL"), each followed by " ; ", and ends with the page-table rendering. When the timestamp,
      the name and the reason hold no '[', the line opens exactly one bracket per page of the
      process's table. */
  method Log(pcb: PCB?, timestamp: string, reason: Option<string>, from: Option<ProcState>, to: Option<ProcState>)
    returns (line: Option<string>)
    ensures line.None? <==> pcb == null
    ensures line.Some? ==>
      var head := timestamp + " ; " + IntToString(pcb.pid) + " ; " + pcb.nome + " ; ";
      var tail := FormatPageTable(AsNullable(pcb.pageTable));
      var l := line.value;
      |head| + |tail| <= |l| && l[..|head|] == head && l[|l| - |tail|..] == tail &&
      l[|head|..|l| - |tail|] == ReasonText(reason) + " ; " + StateText(from) + " ; " + StateText(to) + " ; "
    ensures line.Some? && '[' !in timestamp && '[' !in pcb.nome && '[' !in ReasonText(reason) ==>
      Count(line.value, '[') == if pcb.pageTable.None? then 0 else |pcb.pageTable.value|
  {
    if pcb == null {
      return None;
    }
    var head := timestamp + " ; " + IntToString(pcb.pid) + " ; " + pcb.nome + " ; ";
    var fields := ReasonText(reason) + " ; " + StateText(from) + " ; " + StateText(to) + " ; ";
    var tail := FormatPageTable(AsNullable(pcb.pageTable));
    if '[' !in timestamp && '[' !in pcb.nome && '[' !in ReasonText(reason) {
      assert '[' !in IntToString(pcb.pid);
      assert '[' !in head;
      assert '[' !in StateText(from) && '[' !in StateText(to);
      assert '[' !in fields;
      ItemsInLine(head + fields, pcb.pageTable);
    }
    Parts(head, fields, tail);
    var text := head + fields + tail;
    return Some(text);
  }
}
