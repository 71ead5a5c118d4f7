/** The paging structures of arch/x86/paging.c and what they mean: 32-bit paging with 4 MB pages,
    as in section 4.3 of the Intel 64 and IA-32 Architectures Software Developer's Manual,
    volume 3A. */
module Paging {
  import opened Common

  const KB4 := 4096
  const MB4 := 0x40_0000
  const ENTRIES := 1024
  const PROCESS_VIRT_PAGE_START := 0x800_0000
  const PROCESS_LINK_OFFSET := 0x4_8000
  const VIDEO_FRAME := 0xB8
  const USER_VIDEO := 33 * MB4

  /** The fields of a directory or table entry that affect translation; `frame` is
      `physical_addr_31_to_12`. */
  datatype Entry = Entry(present: bool, writable: bool, user: bool, large: bool, global: bool, frame: nat)

  // ---------------------------------------------------------------------------
  // Translation
  // ---------------------------------------------------------------------------

  datatype Mapping = Mapping(physical: nat, user: bool, writable: bool)

  /** Physical memory as far as page tables are concerned: the table in each 4 KB frame. */
  type TableMemory = map<nat, seq<Entry>>

  ghost predicate ValidTables(tables: TableMemory) {
    forall f :: f in tables ==> |tables[f]| == ENTRIES
  }

  /** The page walk.  A 4 MB entry whose low frame bits are set points above 4 GB or uses
      reserved bits, and maps nothing here. */
  ghost function Walk(directory: seq<Entry>, tables: TableMemory, address: nat): Option<Mapping>
    requires |directory| == ENTRIES && ValidTables(tables) && address < 0x1_0000_0000
  {
    var pde := directory[address / MB4];
    if !pde.present then None
    else if pde.large then
      if pde.frame % ENTRIES != 0 then None
      else Some(Mapping(pde.frame * KB4 + address % MB4, pde.user, pde.writable))
    else if pde.frame !in tables then None
    else
      var pte := tables[pde.frame][address / KB4 % ENTRIES];
      if !pte.present then None
      else Some(Mapping(pte.frame * KB4 + address % KB4, pde.user && pte.user, pde.writable && pte.writable))
  }

  /** User mode needs permission at every level of the walk, and so does writing. */
  lemma EveryLevelPermits(directory: seq<Entry>, tables: TableMemory, address: nat)
    requires |directory| == ENTRIES && ValidTables(tables) && address < 0x1_0000_0000
    requires Walk(directory, tables, address).Some?
    ensures var pde, m := directory[address / MB4], Walk(directory, tables, address).value;
            && pde.present
            && (pde.large ==> m.user == pde.user && m.writable == pde.writable)
            && (!pde.large ==>
                  && pde.frame in tables
                  && var pte := tables[pde.frame][address / KB4 % ENTRIES];
                  && pte.present && (m.user <==> pde.user && pte.user) && (m.writable <==> pde.writable && pte.writable))
  {
  }

  // ---------------------------------------------------------------------------
  // Addresses
  // ---------------------------------------------------------------------------

  /** `get_process_page_from_slot` */
  function ProcessPage(slot: nat): nat {
    KERNEL_PAGE_END + MB4 * slot
  }

  /** The frame of `get_process_pt`: 124 MB, plus 16 KB per slot, plus 4 KB. */
  function TableFrame(slot: nat): nat {
    31 * ENTRIES + 4 * slot + 1
  }

  // ---------------------------------------------------------------------------
  // What the structures hold
  // ---------------------------------------------------------------------------

  predicate KernelLarge(e: Entry, frame: nat) {
    e.present && e.writable && !e.user && e.large && e.frame == frame
  }

  /** The part of a directory that is the same for every process. */
  predicate SharedEntries(directory: seq<Entry>, tableFrame: nat, videoTableFrame: nat) {
    && |directory| == ENTRIES
    && directory[0] == Entry(true, true, false, false, false, videoTableFrame)
    && KernelLarge(directory[1], ENTRIES)
    && (forall i :: 2 <= i < 2 + MAX_PROCESSES ==> KernelLarge(directory[i], i * ENTRIES))
    && KernelLarge(directory[31], 31 * ENTRIES)
    && directory[33] == Entry(true, true, true, false, false, tableFrame)
    && (forall i :: 8 <= i < ENTRIES && i !in {31, 32, 33} ==> !directory[i].present)
  }

  predicate VideoTable(table: seq<Entry>) {
    && |table| == ENTRIES
    && forall i :: 0 <= i < ENTRIES ==>
         if i == VIDEO_FRAME then table[i] == Entry(true, true, false, false, false, VIDEO_FRAME) else !table[i].present
  }

  predicate ProcessTable(table: seq<Entry>, frame: nat) {
    && |table| == ENTRIES
    && table[0] == Entry(true, true, true, false, false, frame)
    && forall i :: 1 <= i < ENTRIES ==> !table[i].present
  }

  /** The directory of the process in `slot`. */
  predicate ProcessDirectory(directory: seq<Entry>, slot: nat, videoTableFrame: nat) {
    && SharedEntries(directory, TableFrame(slot), videoTableFrame)
    && directory[32] == Entry(true, true, true, true, false, ProcessPage(slot) / KB4)
  }

  /** A slot's structures, in memory that holds the video table and this slot's table. */
  ghost predicate SetUp(directory: seq<Entry>, tables: TableMemory, slot: nat, videoTableFrame: nat, videoFrame: nat) {
    && slot < MAX_PROCESSES
    && ValidTables(tables)
    && ProcessDirectory(directory, slot, videoTableFrame)
    && videoTableFrame in tables && VideoTable(tables[videoTableFrame])
    && TableFrame(slot) in tables && ProcessTable(tables[TableFrame(slot)], videoFrame)
  }

  // ---------------------------------------------------------------------------
  // What they mean
  // ---------------------------------------------------------------------------

  /** The whole translation of a set-up slot, for every 32-bit address. */
  function Meaning(slot: nat, videoFrame: nat, address: nat): Option<Mapping> {
    if address / KB4 == VIDEO_FRAME then Some(Mapping(address, false, true))
    else if MB4 <= address < ProcessPage(MAX_PROCESSES) then Some(Mapping(address, false, true))
    else if 31 * MB4 <= address < 32 * MB4 then Some(Mapping(address, false, true))
    else if PROCESS_VIRT_PAGE_START <= address < USER_VIDEO then
      Some(Mapping(ProcessPage(slot) + (address - PROCESS_VIRT_PAGE_START), true, true))
    else if USER_VIDEO <= address < USER_VIDEO + KB4 then
      Some(Mapping(videoFrame * KB4 + (address - USER_VIDEO), true, true))
    else None
  }

  lemma SmallPage(address: nat, i: nat)
    requires address / MB4 == i
    ensures address / KB4 % ENTRIES == address / KB4 - i * ENTRIES
    ensures address % KB4 == address - address / KB4 * KB4
  {
  }

  /** The page walk through the structures built for a slot is exactly `Meaning`. */
  lemma WalkMeans(directory: seq<Entry>, tables: TableMemory, slot: nat, videoTableFrame: nat, videoFrame: nat, address: nat)
    requires SetUp(directory, tables, slot, videoTableFrame, videoFrame) && address < 0x1_0000_0000
    ensures Walk(directory, tables, address) == Meaning(slot, videoFrame, address)
  {
    var i := address / MB4;
    if i == 0 || i == 33 {
      SmallPage(address, i);
    }
  }

  /** For every address and every slot: user mode can reach exactly the slot's own 4 MB frame, at
      128 MB, and one 4 KB page, at 132 MB. */
  lemma UserReach(directory: seq<Entry>, tables: TableMemory, slot: nat, videoTableFrame: nat, videoFrame: nat, address: nat)
    requires SetUp(directory, tables, slot, videoTableFrame, videoFrame) && address < 0x1_0000_0000
    ensures var m := Walk(directory, tables, address);
            m.Some? && m.value.user <==> PROCESS_VIRT_PAGE_START <= address < USER_VIDEO + KB4
    ensures PROCESS_VIRT_PAGE_START <= address < USER_VIDEO ==>
              var m := Walk(directory, tables, address);
              m.Some? && ProcessPage(slot) <= m.value.physical == ProcessPage(slot) + (address - PROCESS_VIRT_PAGE_START) < ProcessPage(slot + 1)
    ensures USER_VIDEO <= address < USER_VIDEO + KB4 ==>
              var m := Walk(directory, tables, address);
              m.Some? && m.value.physical == videoFrame * KB4 + (address - USER_VIDEO)
  {
    WalkMeans(directory, tables, slot, videoTableFrame, videoFrame, address);
  }

  /** Isolation: outside the video page, no user address of one process reaches memory that a
      user address of another process reaches, nor the kernel's page, nor the paging structures. */
  lemma ProcessesAreIsolated(first: seq<Entry>, second: seq<Entry>, tables: TableMemory, videoTableFrame: nat,
                             slot: nat, video: nat, other: nat, otherVideo: nat, a: nat, b: nat)
    requires SetUp(first, tables, slot, videoTableFrame, video)
    requires SetUp(second, tables, other, videoTableFrame, otherVideo)
    requires slot != other && a < 0x1_0000_0000 && b < 0x1_0000_0000
    requires var m := Walk(first, tables, a); m.Some? && m.value.user && a / KB4 != USER_VIDEO / KB4
    requires var m := Walk(second, tables, b); m.Some? && m.value.user && b / KB4 != USER_VIDEO / KB4
    ensures Walk(first, tables, a).value.physical != Walk(second, tables, b).value.physical
    ensures KERNEL_PAGE_END <= Walk(first, tables, a).value.physical < 31 * MB4
  {
    UserReach(first, tables, slot, videoTableFrame, video, a);
    UserReach(second, tables, other, videoTableFrame, otherVideo, b);
    assert ProcessPage(slot + 1) <= ProcessPage(other) || ProcessPage(other + 1) <= ProcessPage(slot);
  }

  // ---------------------------------------------------------------------------
  // Building them
  // ---------------------------------------------------------------------------

  /** An uninitialised entry with only its present bit cleared, as the source leaves blank ones. */
  method BlankEntry() returns (e: Entry)
    ensures !e.present
  {
    e := *;
    e := e.(present := false);
  }

  /** The first loop of `initialize_paging_structs` and the entries of the directory. */
  method FillDirectory(directory: array<Entry>, tableFrame: nat, videoTableFrame: nat)
    requires directory.Length == ENTRIES
    modifies directory
    ensures SharedEntries(directory[..], tableFrame, videoTableFrame)
  {
    for i := 0 to ENTRIES
      invariant forall k :: 0 <= k < i ==> !directory[k].present
    {
      var blank := BlankEntry();
      directory[i] := blank;
    }
    directory[0] := Entry(true, true, false, false, false, videoTableFrame);
    directory[1] := Entry(true, true, false, true, true, 1024);
    directory[31] := Entry(true, true, false, true, true, 31 * MB4 / KB4);
    for i := 0 to MAX_PROCESSES
      invariant directory[0] == Entry(true, true, false, false, false, videoTableFrame)
      invariant KernelLarge(directory[1], ENTRIES) && KernelLarge(directory[31], 31 * ENTRIES)
      invariant forall k :: 2 <= k < 2 + i ==> KernelLarge(directory[k], k * ENTRIES)
      invariant forall k :: 8 <= k < ENTRIES && k != 31 ==> !directory[k].present
    {
      directory[2 + i] := Entry(true, true, false, true, false, 2048 + 1024 * i);
    }
    directory[33] := Entry(true, true, true, false, false, tableFrame);
  }

  /** The loop that fills `vmem_pt`: only the page of video memory is present. */
  method FillVideoTable(table: array<Entry>)
    requires table.Length == ENTRIES
    modifies table
    ensures VideoTable(table[..])
  {
    for i := 0 to ENTRIES
      invariant forall k :: 0 <= k < i ==>
                  if k == VIDEO_FRAME then table[k] == Entry(true, true, false, false, false, VIDEO_FRAME) else !table[k].present
    {
      var address := KB4 * i;
      if address != 0xB8000 {
        var blank := BlankEntry();
        table[i] := blank;
      } else {
        table[i] := Entry(true, true, false, false, false, address / KB4);
      }
    }
  }

  /** The process's own page table: one page, the rest not present. */
  method FillProcessTable(table: array<Entry>, videoFrame: nat)
    requires table.Length == ENTRIES
    modifies table
    ensures ProcessTable(table[..], videoFrame)
  {
    table[0] := Entry(true, true, true, false, false, videoFrame);
    for i := 1 to ENTRIES
      invariant table[0] == Entry(true, true, true, false, false, videoFrame)
      invariant forall k :: 1 <= k < i ==> !table[k].present
    {
      var blank := BlankEntry();
      table[i] := blank;
    }
  }

  lemma AlignedPage(slot: nat)
    ensures ProcessPage(slot) / MB4 * MB4 == ProcessPage(slot)
  {
  }

  /** `initialize_paging_structs` and the rest of `setup_process_paging` on one slot's structures. */
  method FillSlot(directory: array<Entry>, table: array<Entry>, videoTable: array<Entry>,
                  slot: nat, videoTableFrame: nat, processAddress: nat, videoAddress: nat)
    requires directory.Length == table.Length == videoTable.Length == ENTRIES
    requires directory != table && directory != videoTable && table != videoTable
    requires processAddress == ProcessPage(slot)
    modifies directory, table, videoTable
    ensures ProcessDirectory(directory[..], slot, videoTableFrame)
    ensures ProcessTable(table[..], videoAddress / KB4)
    ensures VideoTable(videoTable[..])
  {
    FillDirectory(directory, TableFrame(slot), videoTableFrame);
    FillVideoTable(videoTable);
    FillProcessTable(table, videoAddress / KB4);
    AlignedPage(slot);
    directory[32] := Entry(true, true, true, true, false, processAddress / MB4 * MB4 / KB4);
    table[0] := table[0].(user := true);
  }

  /** The structures of all slots, at 124 MB, and the shared table of video memory. */
  class PagingStructs {
    const videoTable: array<Entry>
    const videoTableFrame: nat
    const directories: seq<array<Entry>>
    const tables: seq<array<Entry>>

    /** `vmem_pt` lies in the kernel's 4 MB page; nothing overlaps. */
    ghost predicate Valid() {
      && videoTable.Length == ENTRIES && ENTRIES <= videoTableFrame < 2 * ENTRIES
      && |directories| == |tables| == MAX_PROCESSES
      && (forall s :: 0 <= s < MAX_PROCESSES ==> directories[s].Length == tables[s].Length == ENTRIES)
      && (forall s :: 0 <= s < MAX_PROCESSES ==> directories[s] != videoTable && tables[s] != videoTable)
      && (forall s, t :: 0 <= s < MAX_PROCESSES && 0 <= t < MAX_PROCESSES ==> directories[s] != tables[t])
      && (forall s, t :: 0 <= s < t < MAX_PROCESSES ==> directories[s] != directories[t] && tables[s] != tables[t])
    }

    constructor (videoTable: array<Entry>, videoTableFrame: nat, directories: seq<array<Entry>>, tables: seq<array<Entry>>)
      requires videoTable.Length == ENTRIES && ENTRIES <= videoTableFrame < 2 * ENTRIES
      requires |directories| == |tables| == MAX_PROCESSES
      requires forall s :: 0 <= s < MAX_PROCESSES ==> directories[s].Length == tables[s].Length == ENTRIES
      requires forall s :: 0 <= s < MAX_PROCESSES ==> directories[s] != videoTable && tables[s] != videoTable
      requires forall s, t :: 0 <= s < MAX_PROCESSES && 0 <= t < MAX_PROCESSES ==> directories[s] != tables[t]
      requires forall s, t :: 0 <= s < t < MAX_PROCESSES ==> directories[s] != directories[t] && tables[s] != tables[t]
      ensures Valid()
    {
      this.videoTable := videoTable;
      this.videoTableFrame := videoTableFrame;
      this.directories := directories;
      this.tables := tables;
    }

    /** The tables by the frame they are in. */
    ghost function Memory(): (m: TableMemory)
      requires Valid()
      reads videoTable, tables
      ensures ValidTables(m)
      ensures videoTableFrame in m && m[videoTableFrame] == videoTable[..]
      ensures forall s: nat :: s < MAX_PROCESSES ==> TableFrame(s) in m && m[TableFrame(s)] == tables[s][..]
    {
      map[TableFrame(0) := tables[0][..], TableFrame(1) := tables[1][..], TableFrame(2) := tables[2][..],
          TableFrame(3) := tables[3][..], TableFrame(4) := tables[4][..], TableFrame(5) := tables[5][..],
          videoTableFrame := videoTable[..]]
    }

    ghost predicate Ready(slot: nat, videoFrame: nat)
      requires Valid()
      reads videoTable, tables, directories
    {
      slot < MAX_PROCESSES && SetUp(directories[slot][..], Memory(), slot, videoTableFrame, videoFrame)
    }

    /** `setup_process_paging` for a slot; every other process keeps its address space. */
    method SetupProcessPaging(slot: nat, processAddress: nat, videoAddress: nat)
      requires Valid() && slot < MAX_PROCESSES && processAddress == ProcessPage(slot)
      modifies directories[slot], tables[slot], videoTable
      ensures Ready(slot, videoAddress / KB4)
      ensures forall other: nat, v: nat :: other != slot && old(Ready(other, v)) ==> Ready(other, v)
    {
      FillSlot(directories[slot], tables[slot], videoTable, slot, videoTableFrame, processAddress, videoAddress);
    }

    /** `set_process_vmem_page`: only the slot's own video page moves. */
    method SetProcessVmemPage(slot: nat, videoAddress: nat, ghost before: nat)
      requires Valid() && Ready(slot, before)
      modifies tables[slot]
      ensures Ready(slot, videoAddress / KB4)
      ensures forall other: nat, v: nat :: other != slot && old(Ready(other, v)) ==> Ready(other, v)
    {
      var table := tables[slot];
      table[0] := table[0].(frame := videoAddress / KB4, present := true);
    }
  }
}
