/** The two-level page table of pelikanOS/src/vmm.c, seen both as the words the kernel writes and
    as the translation the processor performs (32-bit paging, section 4.3 of the Intel SDM,
    Volume 3A).  Addresses and table entries are unsigned 32-bit numbers. */
module Paging {
  import opened Wrappers

  const ENTRIES: nat := 1024
  const PAGE: nat := 4096
  const PAGES: nat := 1024 * 1024

  type Table = t: seq<nat> | |t| == ENTRIES witness seq(ENTRIES, _ => 0)

  /** The physical pages the kernel reads and writes as tables, by address. */
  type Memory = map<nat, Table>

  function Zeroes(): Table { seq(ENTRIES, _ => 0) }

  predicate Present(entry: nat) { entry % 2 == 1 }

  /** `entry & 0xFFFFF000` */
  function FrameOf(entry: nat): nat { entry - entry % PAGE }

  /** `x | PAGE_PRESENT | PAGE_RW` */
  function WithFlags(x: nat): nat { x - x % 4 + 3 }

  lemma SamePage(x: nat, k: nat)
    requires PAGE * k <= x < PAGE * k + PAGE
    ensures FrameOf(x) == PAGE * k
  {
    assert x / PAGE == k;
  }

  lemma FlagsKeepFrame(x: nat)
    ensures Present(WithFlags(x)) && FrameOf(WithFlags(x)) == FrameOf(x)
  {
    var k, q := x / PAGE, x / 4;
    assert WithFlags(x) == 4 * q + 3;
    assert 1024 * k <= q < 1024 * k + 1024;
    assert PAGE * k <= WithFlags(x) < PAGE * k + PAGE;
    SamePage(WithFlags(x), k);
    SamePage(x, k);
  }

  function DirIndex(virt: nat): nat { virt / 0x40_0000 }
  function TableIndex(virt: nat): nat { virt / PAGE % ENTRIES }

  /** The tables are laid out as vmm_init and vmm_map_page lay them out: an absent directory
      entry is zero, present ones lead to tables of their own, and page 0 is none of them. */
  ghost predicate Laid(mem: Memory, dir: nat) {
    && 0 in mem && dir in mem && dir != 0
    && (forall i :: 0 <= i < ENTRIES ==> if Present(mem[dir][i]) then FrameOf(mem[dir][i]) in mem else mem[dir][i] == 0)
    && (forall i :: 0 <= i < ENTRIES && Present(mem[dir][i]) ==>
          FrameOf(mem[dir][i]) != dir && FrameOf(mem[dir][i]) != 0)
    && (forall i, j :: 0 <= i < j < ENTRIES && Present(mem[dir][i]) && Present(mem[dir][j]) ==>
          FrameOf(mem[dir][i]) != FrameOf(mem[dir][j]))
  }

  /** The frame page `p` is translated to, as the processor walks the tables. */
  ghost function Walk(mem: Memory, dir: nat, p: nat): Option<nat>
    requires Laid(mem, dir) && p < PAGES
  {
    var pde := mem[dir][p / ENTRIES];
    if !Present(pde) then None
    else
      var pte := mem[FrameOf(pde)][p % ENTRIES];
      if Present(pte) then Some(FrameOf(pte)) else None
  }

  // ----- the kernel's operations -----

  /** vmm_init with the two frames it was given. */
  function InitTables(mem: Memory, dir: nat, table: nat): Memory {
    mem[table := seq(ENTRIES, i requires i >= 0 => WithFlags(i * PAGE))][dir := Zeroes()[0 := WithFlags(table)]]
  }

  /** vmm_map_page; `spare` is the frame the allocator hands out should a table be missing. */
  function MapTables(mem: Memory, dir: nat, virt: nat, phys: nat, spare: nat): Memory
    requires dir in mem && virt < PAGES * PAGE
    requires Present(mem[dir][DirIndex(virt)]) ==> FrameOf(mem[dir][DirIndex(virt)]) in mem
  {
    var d := DirIndex(virt);
    if Present(mem[dir][d]) then
      var t := FrameOf(mem[dir][d]);
      mem[t := mem[t][TableIndex(virt) := WithFlags(phys)]]
    else
      mem[dir := mem[dir][d := WithFlags(spare)]][spare := Zeroes()[TableIndex(virt) := WithFlags(phys)]]
  }

  /** vmm_unmap_page: it does not look at the present bit of the directory entry. */
  function UnmapTables(mem: Memory, dir: nat, virt: nat): Memory
    requires dir in mem && virt < PAGES * PAGE
    requires FrameOf(mem[dir][DirIndex(virt)]) in mem
  {
    var t := FrameOf(mem[dir][DirIndex(virt)]);
    mem[t := mem[t][TableIndex(virt) := 0]]
  }

  /** A frame the allocator may hand out: aligned, and no table page. */
  predicate Fresh(mem: Memory, frame: nat) { frame % PAGE == 0 && frame !in mem }

  lemma InitDirectory(mem: Memory, dir: nat, table: nat)
    requires mem.Keys == {0} && Fresh(mem, dir) && Fresh(mem, table) && dir != table
    ensures var r := InitTables(mem, dir, table);
            && Laid(r, dir) && Present(r[dir][0]) && FrameOf(r[dir][0]) == table
            && forall i :: 0 < i < ENTRIES ==> r[dir][i] == 0
  {
    FlagsKeepFrame(table);
  }

  lemma InitEntry(mem: Memory, dir: nat, table: nat, p: nat)
    requires Fresh(mem, dir) && Fresh(mem, table) && dir != table && p < ENTRIES
    ensures var entry := InitTables(mem, dir, table)[table][p]; Present(entry) && FrameOf(entry) == p * PAGE
  {
    FlagsKeepFrame(p * PAGE);
  }

  lemma InitLaid(mem: Memory, dir: nat, table: nat)
    requires mem.Keys == {0} && Fresh(mem, dir) && Fresh(mem, table) && dir != table
    ensures Laid(InitTables(mem, dir, table), dir)
    ensures forall p :: 0 <= p < PAGES ==>
              Walk(InitTables(mem, dir, table), dir, p) == if p < ENTRIES then Some(p * PAGE) else None
  {
    var r := InitTables(mem, dir, table);
    InitDirectory(mem, dir, table);
    hide Laid;
    forall p | 0 <= p < PAGES ensures Walk(r, dir, p) == if p < ENTRIES then Some(p * PAGE) else None {
      if p < ENTRIES { InitEntry(mem, dir, table, p); }
    }
  }

  lemma PageIndices(virt: nat)
    requires virt < PAGES * PAGE
    ensures virt / PAGE < PAGES && DirIndex(virt) == virt / PAGE / ENTRIES && TableIndex(virt) == virt / PAGE % ENTRIES
    ensures DirIndex(virt) < ENTRIES && TableIndex(virt) < ENTRIES
  {
  }

  /** Different pages use different entries. */
  lemma PageSplit(p: nat, q: nat)
    requires p / ENTRIES == q / ENTRIES && p % ENTRIES == q % ENTRIES
    ensures p == q
  {
  }

  lemma MapLaid(mem: Memory, dir: nat, virt: nat, phys: nat, spare: nat)
    requires Laid(mem, dir) && virt < PAGES * PAGE && Fresh(mem, spare)
    ensures Laid(MapTables(mem, dir, virt, phys, spare), dir)
  {
    PageIndices(virt);
    FlagsKeepFrame(spare);
  }

  /** Mapping changes exactly the one page, to the frame holding `phys`; a spare table that has to
      be installed translates nothing else. */
  lemma MapChangesOnePage(mem: Memory, dir: nat, virt: nat, phys: nat, spare: nat)
    requires Laid(mem, dir) && virt < PAGES * PAGE && Fresh(mem, spare)
    ensures var r := MapTables(mem, dir, virt, phys, spare);
            && Laid(r, dir)
            && forall p :: 0 <= p < PAGES ==>
                 Walk(r, dir, p) == if p == virt / PAGE then Some(FrameOf(phys)) else Walk(mem, dir, p)
  {
    var r, d := MapTables(mem, dir, virt, phys, spare), DirIndex(virt);
    PageIndices(virt);
    FlagsKeepFrame(phys);
    FlagsKeepFrame(spare);
    assert FrameOf(spare) == spare;
    MapLaid(mem, dir, virt, phys, spare);
    forall p | 0 <= p < PAGES
      ensures Walk(r, dir, p) == if p == virt / PAGE then Some(FrameOf(phys)) else Walk(mem, dir, p)
    {
      if p / ENTRIES == d && p % ENTRIES == TableIndex(virt) { PageSplit(p, virt / PAGE); }
    }
  }

  /** Unmapping removes exactly the one page, whether its directory entry is present or not.  When
      it is absent the write lands in physical page 0 instead of a table; so page 0 survives
      exactly when the entry is present, or its word there was zero anyway. */
  lemma UnmapRemovesOnePage(mem: Memory, dir: nat, virt: nat)
    requires Laid(mem, dir) && virt < PAGES * PAGE
    ensures var r := UnmapTables(mem, dir, virt);
            && Laid(r, dir)
            && (forall p :: 0 <= p < PAGES ==>
                  Walk(r, dir, p) == if p == virt / PAGE then None else Walk(mem, dir, p))
            && (r[0] == mem[0] <==> Present(mem[dir][DirIndex(virt)]) || mem[0][TableIndex(virt)] == 0)
  {
    var r, d := UnmapTables(mem, dir, virt), DirIndex(virt);
    PageIndices(virt);
    assert r[dir] == mem[dir];
    forall p | 0 <= p < PAGES
      ensures Walk(r, dir, p) == if p == virt / PAGE then None else Walk(mem, dir, p)
    {
      if p / ENTRIES == d && p % ENTRIES == TableIndex(virt) { PageSplit(p, virt / PAGE); }
    }
  }

  /** And it does not survive everywhere: right after vmm_init, unmapping anything above the first
      4 MB clears the word of page 0 at that page's table index. */
  lemma UnmapDamagesPageZero(mem: Memory, dir: nat, table: nat, virt: nat)
    requires mem.Keys == {0} && Fresh(mem, dir) && Fresh(mem, table) && dir != table
    requires 0x40_0000 <= virt < PAGES * PAGE && mem[0][TableIndex(virt)] != 0
    ensures var r := InitTables(mem, dir, table);
            && Laid(r, dir) && Walk(r, dir, virt / PAGE) == None
            && UnmapTables(r, dir, virt)[0] == mem[0][TableIndex(virt) := 0] != mem[0]
  {
    InitLaid(mem, dir, table);
    InitDirectory(mem, dir, table);
    PageIndices(virt);
    var r := InitTables(mem, dir, table);
    assert r[dir][DirIndex(virt)] == 0 && r[0] == mem[0];
    assert mem[0][TableIndex(virt) := 0][TableIndex(virt)] == 0;
    hide Laid, InitTables, Walk;
  }

  // ----- the bits of an entry -----

  /** `x | PAGE_PRESENT | PAGE_RW`: the two lowest bits are set, and no other bit changes. */
  lemma FlagsExact(x: nat)
    ensures WithFlags(x) % 2 == 1 && WithFlags(x) / 2 % 2 == 1 && WithFlags(x) / 4 == x / 4
    ensures x % 4096 == 0 ==> WithFlags(x) == x + 3
  {
  }

  /** Every present entry, of the directory and of the tables, also allows writing. */
  ghost predicate AllWritable(mem: Memory, dir: nat)
    requires Laid(mem, dir)
  {
    forall i :: 0 <= i < ENTRIES && Present(mem[dir][i]) ==>
      && mem[dir][i] / 2 % 2 == 1
      && forall j :: 0 <= j < ENTRIES && Present(mem[FrameOf(mem[dir][i])][j]) ==>
           mem[FrameOf(mem[dir][i])][j] / 2 % 2 == 1
  }

  /** The table entry of a mapped page. */
  ghost function EntryOf(mem: Memory, dir: nat, p: nat): nat
    requires Laid(mem, dir) && p < PAGES && Walk(mem, dir, p).Some?
  {
    mem[FrameOf(mem[dir][p / ENTRIES])][p % ENTRIES]
  }

  /** A page mapped to an aligned frame has exactly the present and the write flag. */
  lemma MapEntryExact(mem: Memory, dir: nat, virt: nat, phys: nat, spare: nat)
    requires Laid(mem, dir) && virt < PAGES * PAGE && Fresh(mem, spare) && phys % PAGE == 0
    ensures var r := MapTables(mem, dir, virt, phys, spare);
            && Laid(r, dir) && Walk(r, dir, virt / PAGE) == Some(phys)
            && EntryOf(r, dir, virt / PAGE) == phys + 3
  {
    MapChangesOnePage(mem, dir, virt, phys, spare);
    PageIndices(virt);
    FlagsKeepFrame(spare);
    FlagsExact(phys);
    SamePage(phys, phys / PAGE);
    hide Laid, Walk;
  }

  lemma InitWritable(mem: Memory, dir: nat, table: nat)
    requires mem.Keys == {0} && Fresh(mem, dir) && Fresh(mem, table) && dir != table
    ensures Laid(InitTables(mem, dir, table), dir) && AllWritable(InitTables(mem, dir, table), dir)
  {
    InitDirectory(mem, dir, table);
    FlagsExact(table);
    forall j | 0 <= j < ENTRIES ensures InitTables(mem, dir, table)[table][j] / 2 % 2 == 1 { FlagsExact(j * PAGE); }
    hide Laid, WithFlags;
  }

  lemma MapWritable(mem: Memory, dir: nat, virt: nat, phys: nat, spare: nat)
    requires Laid(mem, dir) && virt < PAGES * PAGE && Fresh(mem, spare) && AllWritable(mem, dir)
    ensures var r := MapTables(mem, dir, virt, phys, spare); Laid(r, dir) && AllWritable(r, dir)
  {
    MapLaid(mem, dir, virt, phys, spare);
    PageIndices(virt);
    FlagsKeepFrame(spare);
    FlagsExact(phys);
    FlagsExact(spare);
    hide WithFlags;
  }

  lemma UnmapWritable(mem: Memory, dir: nat, virt: nat)
    requires Laid(mem, dir) && virt < PAGES * PAGE && AllWritable(mem, dir)
    ensures var r := UnmapTables(mem, dir, virt); Laid(r, dir) && AllWritable(r, dir)
  {
    UnmapRemovesOnePage(mem, dir, virt);
    PageIndices(virt);
  }

  // ----- runs -----

  datatype Op = Map(virt: nat, phys: nat, spare: nat) | Unmap(virt: nat)

  ghost predicate Fits(mem: Memory, dir: nat, ops: seq<Op>)
    requires Laid(mem, dir)
    decreases |ops|
  {
    ops == [] ||
    match ops[0]
    case Map(v, f, spare) =>
      v < PAGES * PAGE && Fresh(mem, spare) &&
      (MapChangesOnePage(mem, dir, v, f, spare); Fits(MapTables(mem, dir, v, f, spare), dir, ops[1..]))
    case Unmap(v) =>
      v < PAGES * PAGE &&
      (UnmapRemovesOnePage(mem, dir, v); Fits(UnmapTables(mem, dir, v), dir, ops[1..]))
  }

  ghost function After(mem: Memory, dir: nat, ops: seq<Op>): (r: Memory)
    requires Laid(mem, dir) && Fits(mem, dir, ops)
    ensures Laid(r, dir)
    decreases |ops|
  {
    if ops == [] then mem
    else
      match ops[0]
      case Map(v, f, spare) =>
        MapChangesOnePage(mem, dir, v, f, spare);
        After(MapTables(mem, dir, v, f, spare), dir, ops[1..])
      case Unmap(v) =>
        UnmapRemovesOnePage(mem, dir, v);
        After(UnmapTables(mem, dir, v), dir, ops[1..])
  }

  /** The flat map from pages to frames that the operations are meant to maintain. */
  function Flat(flat: map<nat, nat>, ops: seq<Op>): map<nat, nat>
    decreases |ops|
  {
    if ops == [] then flat
    else
      match ops[0]
      case Map(v, f, _) => Flat(flat[v / PAGE := FrameOf(f)], ops[1..])
      case Unmap(v) => Flat(flat - {v / PAGE}, ops[1..])
  }

  ghost predicate AgreesWith(mem: Memory, dir: nat, flat: map<nat, nat>)
    requires Laid(mem, dir)
  {
    forall p :: 0 <= p < PAGES ==> Walk(mem, dir, p) == if p in flat then Some(flat[p]) else None
  }

  /** Over every run the tables translate exactly as the flat map says. */
  lemma {:induction false} RunAgrees(mem: Memory, dir: nat, ops: seq<Op>, flat: map<nat, nat>)
    requires Laid(mem, dir) && Fits(mem, dir, ops) && AgreesWith(mem, dir, flat)
    ensures AgreesWith(After(mem, dir, ops), dir, Flat(flat, ops))
    decreases |ops|
  {
    if ops != [] {
      match ops[0]
      case Map(v, f, spare) =>
        MapChangesOnePage(mem, dir, v, f, spare);
        RunAgrees(MapTables(mem, dir, v, f, spare), dir, ops[1..], flat[v / PAGE := FrameOf(f)]);
      case Unmap(v) =>
        UnmapRemovesOnePage(mem, dir, v);
        RunAgrees(UnmapTables(mem, dir, v), dir, ops[1..], flat - {v / PAGE});
    }
  }

  /** Over every run everything mapped is writable. */
  lemma {:induction false} RunWritable(mem: Memory, dir: nat, ops: seq<Op>)
    requires Laid(mem, dir) && Fits(mem, dir, ops) && AllWritable(mem, dir)
    ensures AllWritable(After(mem, dir, ops), dir)
    decreases |ops|
  {
    if ops != [] {
      match ops[0]
      case Map(v, f, spare) =>
        MapWritable(mem, dir, v, f, spare);
        RunWritable(MapTables(mem, dir, v, f, spare), dir, ops[1..]);
      case Unmap(v) =>
        UnmapWritable(mem, dir, v);
        RunWritable(UnmapTables(mem, dir, v), dir, ops[1..]);
    }
  }

  // ----- the code, writing the entries in place -----

  class Vmm {
    var mem: Memory
    var pageDirectory: nat

    /** vmm_init */
    method Init(frameForDirectory: nat, frameForTable: nat)
      requires mem.Keys == {0}
      requires Fresh(mem, frameForDirectory) && Fresh(mem, frameForTable) && frameForDirectory != frameForTable
      modifies this
      ensures pageDirectory == frameForDirectory && mem == InitTables(old(mem), frameForDirectory, frameForTable)
      ensures Laid(mem, pageDirectory)
    {
      pageDirectory := frameForDirectory;
      mem := mem[pageDirectory := Zeroes()];
      var pageTable: Table := Zeroes();
      var i := 0;
      while i < ENTRIES
        invariant 0 <= i <= ENTRIES
        invariant forall j :: 0 <= j < i ==> pageTable[j] == WithFlags(j * PAGE)
      {
        pageTable := pageTable[i := WithFlags(i * PAGE)];
        i := i + 1;
      }
      mem := mem[frameForTable := pageTable];
      mem := mem[pageDirectory := mem[pageDirectory][0 := WithFlags(frameForTable)]];
      assert pageTable == seq(ENTRIES, i requires i >= 0 => WithFlags(i * PAGE));
      InitLaid(old(mem), frameForDirectory, frameForTable);
    }

    /** vmm_map_page */
    method MapPage(virt: nat, phys: nat, spare: nat)
      requires Laid(mem, pageDirectory) && virt < PAGES * PAGE && Fresh(mem, spare)
      modifies this`mem
      ensures mem == MapTables(old(mem), pageDirectory, virt, phys, spare) && Laid(mem, pageDirectory)
    {
      MapChangesOnePage(mem, pageDirectory, virt, phys, spare);
      PageIndices(virt);
      var dirIndex, tableIndex := DirIndex(virt), TableIndex(virt);
      if !Present(mem[pageDirectory][dirIndex]) {
        mem := mem[spare := Zeroes()];
        mem := mem[pageDirectory := mem[pageDirectory][dirIndex := WithFlags(spare)]];
        FlagsKeepFrame(spare);
      }
      var pageTable := FrameOf(mem[pageDirectory][dirIndex]);
      mem := mem[pageTable := mem[pageTable][tableIndex := WithFlags(phys)]];
    }

    /** vmm_unmap_page */
    method UnmapPage(virt: nat)
      requires Laid(mem, pageDirectory) && virt < PAGES * PAGE
      modifies this`mem
      ensures mem == UnmapTables(old(mem), pageDirectory, virt) && Laid(mem, pageDirectory)
    {
      UnmapRemovesOnePage(mem, pageDirectory, virt);
      PageIndices(virt);
      var pageTable := FrameOf(mem[pageDirectory][DirIndex(virt)]);
      mem := mem[pageTable := mem[pageTable][TableIndex(virt) := 0]];
    }
  }
}
