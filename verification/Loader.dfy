/** Loading a program: from a file, through the running process's page directory, to where the new
    process finds it under its own. */
module Loader {
  import opened Common
  import opened FileSystem
  import opened Directory
  import opened Paging
  import Process

  const ROOM := MB4 - PROCESS_LINK_OFFSET
  const ELF_MAGIC: seq<Byte> := [0x7F, 0x45, 0x4C, 0x46]
  const ENTRYPOINT := 24
  const HEADER_SIZE := 28

  /** Where the loader stores slot `s`'s program: in the identity window, so this is its physical
      address and its virtual one. */
  function LoadAddress(s: nat): nat {
    ProcessPage(s) + PROCESS_LINK_OFFSET
  }

  /** The directory loaded for a slot and the table its entries name lie side by side from 124 MB on, in
      frames of their own and above all program frames. */
  lemma StructsLieTogether(s: nat, t: nat)
    requires s < MAX_PROCESSES && t < MAX_PROCESSES
    ensures TableFrame(s) * KB4 == Process.DirectoryAddress(s) + KB4
    ensures ProcessPage(MAX_PROCESSES) <= Process.DirectoryAddress(s) && TableFrame(s) * KB4 + KB4 <= 32 * MB4
    ensures s != t ==> TableFrame(s) != TableFrame(t) && TableFrame(s) * KB4 != Process.DirectoryAddress(t)
    ensures ProcessPage(s) == 0x80_0000 + 0x40_0000 * s
  {
  }

  /** The byte a process finds at a virtual address. */
  ghost function ByteAt(directory: seq<Entry>, tables: TableMemory, memory: seq<Byte>, address: nat): Option<Byte>
    requires |directory| == ENTRIES && ValidTables(tables) && address < TWO_32
  {
    match Walk(directory, tables, address)
    case None => None
    case Some(m) => if m.physical < |memory| then Some(memory[m.physical]) else None
  }

  /** A little-endian 32-bit number. */
  function Little32(b: seq<Byte>): (n: nat)
    requires |b| == 4
    ensures n < TWO_32
  {
    var b0: int, b1: int, b2: int, b3: int := b[0], b[1], b[2], b[3];
    b0 + 0x100 * b1 + 0x1_0000 * b2 + 0x100_0000 * b3
  }

  /** Its bytes, lowest first, are the bytes it was read from. */
  lemma BytesOfLittle32(b: seq<Byte>)
    requires |b| == 4
    ensures var n := Little32(b);
            n % 256 == b[0] && n / 256 % 256 == b[1] && n / 0x1_0000 % 256 == b[2] && n / 0x100_0000 == b[3]
  {
    var b0: int, b1: int, b2: int, b3: int := b[0], b[1], b[2], b[3];
    var q2 := b2 + 256 * b3;
    var q1 := b1 + 256 * q2;
    assert Little32(b) == b0 + 256 * q1;
    LowByte(b0, q1);
    LowByte(b1, q2);
    LowByte(b2, b3);
    HigherBytes(Little32(b));
  }

  lemma LowByte(b: int, q: int)
    requires 0 <= b < 256
    ensures (b + 256 * q) % 256 == b && (b + 256 * q) / 256 == q
  {
  }

  lemma HigherBytes(n: nat)
    ensures n / 0x1_0000 == n / 256 / 256 && n / 0x100_0000 == n / 256 / 256 / 256
  {
  }

  /** And any 32-bit number is read back from its bytes. */
  lemma Little32OfBytes(n: nat)
    requires n < TWO_32
    ensures Little32([n % 256, n / 256 % 256, n / 0x1_0000 % 256, n / 0x100_0000]) == n
  {
    HigherBytes(n);
  }

  /** The entry point of a program image, 0 if it is none. */
  function EntryPoint(image: seq<Byte>): nat
    requires |image| >= HEADER_SIZE
  {
    if image[..4] == ELF_MAGIC then Little32(image[ENTRYPOINT..ENTRYPOINT + 4]) else 0
  }

  lemma MagicIs(s: seq<Byte>)
    requires |s| >= 4
    ensures CString(s, 4) == CString(ELF_MAGIC, 4) <==> s[..4] == ELF_MAGIC
  {
    CStringIs(ELF_MAGIC, 4, ELF_MAGIC);
    if s[..4] == ELF_MAGIC {
      CStringIs(s, 4, ELF_MAGIC);
    }
  }

  /** `get_executable_entrypoint` on the program at `base`. */
  method GetExecutableEntrypoint(memory: array<Byte>, base: nat, ghost image: seq<Byte>) returns (entry: nat)
    requires base + HEADER_SIZE <= memory.Length && image == memory[..][base..base + HEADER_SIZE]
    ensures entry == EntryPoint(image)
    ensures image[..4] != [0x7F, 0x45, 0x4C, 0x46] ==> entry == 0
    ensures image[..4] == [0x7F, 0x45, 0x4C, 0x46] ==>
              entry % 256 == image[24] && entry / 256 % 256 == image[25] && entry / 0x1_0000 % 256 == image[26] && entry / 0x100_0000 == image[27]
  {
    var differs := Strncmp(memory[base..base + 4], ELF_MAGIC, 4);
    assert memory[base..base + 4] == image[..4];
    MagicIs(image[..4]);
    assert image[..4][..4] == image[..4];
    if differs != 0 {
      return 0;
    }
    entry := Little32(memory[base + ENTRYPOINT..base + ENTRYPOINT + 4]);
    BytesOfLittle32(memory[base + ENTRYPOINT..base + ENTRYPOINT + 4]);
    assert memory[base + ENTRYPOINT..base + ENTRYPOINT + 4] == image[ENTRYPOINT..];
  }

  /** The name denotes a file that can be read as far as there is room and is longer than the magic. */
  ghost predicate Loadable(img: Image, name: seq<Byte>, i: nat) {
    && Denotes(img, name, i) && !ReadFails(img, img.entries[i].inode, 0, ROOM)
    && img.inodes[img.entries[i].inode].length > 4
  }

  /** What is loaded of it. */
  ghost function Program(img: Image, name: seq<Byte>, i: nat): (program: seq<Byte>)
    requires WellFormed(img) && Loadable(img, name, i)
    ensures |program| <= ROOM
  {
    var node := img.inodes[img.entries[i].inode];
    Slice(img, node, 0, Min(ROOM, node.length))
  }

  /** The program lies at a slot's load address. */
  ghost predicate InPlace(memory: seq<Byte>, slot: nat, program: seq<Byte>) {
    |program| <= ROOM && LoadAddress(slot) + |program| <= |memory| && memory[LoadAddress(slot)..LoadAddress(slot) + |program|] == program
  }

  /** The header the loader looks at: the start of the program, over what lay there before. */
  ghost function Header(program: seq<Byte>, before: seq<Byte>): (header: seq<Byte>)
    requires |before| == HEADER_SIZE
    ensures |header| == HEADER_SIZE
  {
    if |program| >= HEADER_SIZE then program[..HEADER_SIZE] else program + before[|program|..]
  }

  /** The entry point found for a name, given what lay at the load address before: 0 if there is
      nothing to load, else what the header of the program says. */
  ghost predicate IsEntry(entry: nat, img: Image, name: seq<Byte>, before: seq<Byte>)
    requires WellFormed(img) && |before| == HEADER_SIZE
  {
    && ((forall i: nat :: !Loadable(img, name, i)) ==> entry == 0)
    && forall i: nat :: Loadable(img, name, i) ==> entry == EntryPoint(Header(Program(img, name, i), before))
  }

  /** The entry point depends on the program alone if and only if the program reaches past the entry
      point in its header, or does not start like a program. */
  lemma EntryIsTheProgramsIff(program: seq<Byte>)
    requires |program| > 4
    ensures (forall a: seq<Byte>, b: seq<Byte> :: |a| == |b| == HEADER_SIZE ==>
               EntryPoint(Header(program, a)) == EntryPoint(Header(program, b))) <==>
            |program| >= HEADER_SIZE || program[..4] != ELF_MAGIC
  {
    if |program| < HEADER_SIZE {
      forall a: seq<Byte> | |a| == HEADER_SIZE
        ensures Header(program, a)[..4] == program[..4]
      {
      }
      if program[..4] == ELF_MAGIC {
        StaleByteShows(program);
      }
    }
  }

  /** With 27 bytes or fewer of a program, the last byte of its entry point is whatever lay there. */
  lemma StaleByteShows(program: seq<Byte>)
    requires 4 < |program| < HEADER_SIZE && program[..4] == ELF_MAGIC
    ensures var a: seq<Byte> := seq(HEADER_SIZE, _ => 0); var b: seq<Byte> := a[HEADER_SIZE - 1 := 1];
            EntryPoint(Header(program, a)) != EntryPoint(Header(program, b))
  {
    var a: seq<Byte> := seq(HEADER_SIZE, _ => 0);
    var b: seq<Byte> := a[HEADER_SIZE - 1 := 1];
    var ha, hb := Header(program, a), Header(program, b);
    assert ha[..4] == program[..4] && hb[..4] == program[..4];
    var ea, eb := ha[ENTRYPOINT..ENTRYPOINT + 4], hb[ENTRYPOINT..ENTRYPOINT + 4];
    assert ea[3] == 0 && eb[3] == 1;
    assert ea[0] == eb[0] && ea[1] == eb[1] && ea[2] == eb[2];
  }

  /** The read of `load_program_into_slot`. */
  method ReadProgram(img: Image, name: seq<Byte>, memory: array<Byte>, slot: nat) returns (retval: int, ghost i: nat)
    requires WellFormed(img) && 0 in name && slot < MAX_PROCESSES && memory.Length >= ProcessPage(MAX_PROCESSES)
    modifies memory
    ensures retval <= 4 ==> forall k: nat :: !Loadable(img, name, k)
    ensures retval > 4 ==> Loadable(img, name, i) && forall k: nat :: Loadable(img, name, k) ==> k == i
    ensures retval > 4 ==> retval == |Program(img, name, i)| && InPlace(memory[..], slot, Program(img, name, i))
    ensures retval > 4 ==> forall k :: LoadAddress(slot) + retval <= k < memory.Length ==> memory[k] == old(memory[k])
    ensures forall k :: 0 <= k < memory.Length && !(ProcessPage(slot) <= k < ProcessPage(slot + 1)) ==> memory[k] == old(memory[k])
  {
    i := 0;
    retval := ReadFileByName(img, name, memory, LoadAddress(slot), ROOM);
    if retval >= 0 {
      i :| Denotes(img, name, i);
      assert forall k: nat :: Denotes(img, name, k) ==> k == i;
      assert retval > 4 ==> memory[LoadAddress(slot)..LoadAddress(slot) + retval] == Program(img, name, i);
    }
  }

  /** `load_program_into_slot`: nothing outside the slot's frame is written; a program that can be
      loaded is in place, and its entry point is what the header there says, or 0 if it is no program. */
  method LoadProgramIntoSlot(img: Image, name: seq<Byte>, memory: array<Byte>, slot: nat) returns (entry: nat)
    requires WellFormed(img) && 0 in name && slot < MAX_PROCESSES && memory.Length >= ProcessPage(MAX_PROCESSES)
    modifies memory
    ensures IsEntry(entry, img, name, old(memory[..])[LoadAddress(slot)..LoadAddress(slot) + HEADER_SIZE])
    ensures forall i: nat :: Loadable(img, name, i) ==> InPlace(memory[..], slot, Program(img, name, i))
    ensures forall k :: 0 <= k < memory.Length && !(ProcessPage(slot) <= k < ProcessPage(slot + 1)) ==> memory[k] == old(memory[k])
  {
    ghost var before := memory[..];
    var retval, i := ReadProgram(img, name, memory, slot);
    if retval < 0 {
      return 0;
    }
    if retval <= 4 {
      return 0;
    }
    ghost var header := Header(Program(img, name, i), before[LoadAddress(slot)..LoadAddress(slot) + HEADER_SIZE]);
    HeaderIs(memory[..], LoadAddress(slot), Program(img, name, i), before);
    entry := GetExecutableEntrypoint(memory, LoadAddress(slot), header);
  }

  lemma HeaderIs(memory: seq<Byte>, base: nat, program: seq<Byte>, before: seq<Byte>)
    requires |memory| == |before| && base + |program| <= |memory| && base + HEADER_SIZE <= |memory|
    requires memory[base..base + |program|] == program
    requires forall k :: base + |program| <= k < |memory| ==> memory[k] == before[k]
    ensures memory[base..base + HEADER_SIZE] == Header(program, before[base..base + HEADER_SIZE])
  {
    var found, header := memory[base..base + HEADER_SIZE], Header(program, before[base..base + HEADER_SIZE]);
    forall k | 0 <= k < HEADER_SIZE
      ensures found[k] == header[k]
    {
      if k < |program| {
        assert memory[base..base + |program|][k] == memory[base + k];
      }
    }
  }

  // ---------------------------------------------------------------------------
  // What processes find
  // ---------------------------------------------------------------------------

  /** Under this directory the loader's stores to a slot go where they mean to go. */
  ghost predicate Identity(directory: seq<Entry>, tables: TableMemory, slot: nat)
    requires |directory| == ENTRIES && ValidTables(tables) && slot < MAX_PROCESSES
  {
    forall a: nat :: LoadAddress(slot) <= a < LoadAddress(slot) + ROOM ==> Walk(directory, tables, a) == Some(Mapping(a, false, true))
  }

  lemma StoresGoThrough(directory: seq<Entry>, tables: TableMemory, running: nat, videoTableFrame: nat, video: nat, slot: nat)
    requires SetUp(directory, tables, running, videoTableFrame, video) && slot < MAX_PROCESSES
    ensures Identity(directory, tables, slot)
  {
    forall a: nat | LoadAddress(slot) <= a < LoadAddress(slot) + ROOM
      ensures Walk(directory, tables, a) == Some(Mapping(a, false, true))
    {
      WalkMeans(directory, tables, running, videoTableFrame, video, a);
    }
  }

  /** All that a process finds from 128 to 132 MB. */
  ghost function UserView(directory: seq<Entry>, tables: TableMemory, memory: seq<Byte>): (view: seq<Option<Byte>>)
    requires |directory| == ENTRIES && ValidTables(tables)
    ensures |view| == MB4
  {
    seq(MB4, k requires 0 <= k < MB4 => ByteAt(directory, tables, memory, PROCESS_VIRT_PAGE_START + k))
  }

  /** It is the process's own frame, byte by byte. */
  lemma ViewIsFrame(directory: seq<Entry>, tables: TableMemory, slot: nat, videoTableFrame: nat, video: nat, memory: seq<Byte>)
    requires SetUp(directory, tables, slot, videoTableFrame, video) && |memory| >= ProcessPage(MAX_PROCESSES)
    ensures forall k :: 0 <= k < MB4 ==> UserView(directory, tables, memory)[k] == Some(memory[ProcessPage(slot) + k])
  {
    forall k | 0 <= k < MB4
      ensures UserView(directory, tables, memory)[k] == Some(memory[ProcessPage(slot) + k])
    {
      UserReach(directory, tables, slot, videoTableFrame, video, PROCESS_VIRT_PAGE_START + k);
      assert UserView(directory, tables, memory)[k] == ByteAt(directory, tables, memory, PROCESS_VIRT_PAGE_START + k);
      assert ProcessPage(slot) + k < ProcessPage(MAX_PROCESSES);
    }
  }

  /** A program in place is what the process finds from its link address on. */
  ghost predicate Finds(view: seq<Option<Byte>>, program: seq<Byte>) {
    && |view| == MB4 && |program| <= ROOM
    && forall k :: 0 <= k < |program| ==> view[PROCESS_LINK_OFFSET + k] == Some(program[k])
  }

  lemma ProgramIsFound(directory: seq<Entry>, tables: TableMemory, slot: nat, videoTableFrame: nat, video: nat,
                       memory: seq<Byte>, program: seq<Byte>)
    requires SetUp(directory, tables, slot, videoTableFrame, video) && |memory| >= ProcessPage(MAX_PROCESSES)
    requires InPlace(memory, slot, program)
    ensures Finds(UserView(directory, tables, memory), program)
  {
    ViewIsFrame(directory, tables, slot, videoTableFrame, video, memory);
    forall k | 0 <= k < |program|
      ensures UserView(directory, tables, memory)[PROCESS_LINK_OFFSET + k] == Some(program[k])
    {
      assert memory[LoadAddress(slot)..LoadAddress(slot) + |program|][k] == memory[LoadAddress(slot) + k];
    }
  }

  /** Writing to another slot's frame and setting up its tables changes nothing a process finds. */
  lemma ViewUntouched(directory: seq<Entry>, tables: TableMemory, directory': seq<Entry>, tables': TableMemory,
                      slot: nat, videoTableFrame: nat, video: nat, memory: seq<Byte>, memory': seq<Byte>, child: nat)
    requires SetUp(directory, tables, slot, videoTableFrame, video) && SetUp(directory', tables', slot, videoTableFrame, video)
    requires |memory| == |memory'| >= ProcessPage(MAX_PROCESSES) && child != slot
    requires forall k :: 0 <= k < |memory| && !(ProcessPage(child) <= k < ProcessPage(child + 1)) ==> memory'[k] == memory[k]
    ensures UserView(directory', tables', memory') == UserView(directory, tables, memory)
  {
    ViewIsFrame(directory, tables, slot, videoTableFrame, video, memory);
    ViewIsFrame(directory', tables', slot, videoTableFrame, video, memory');
  }

  // ---------------------------------------------------------------------------
  // Loading, then paging
  // ---------------------------------------------------------------------------

  class Loading {
    const memory: array<Byte>  // physical memory
    const structs: PagingStructs

    ghost predicate Valid() {
      structs.Valid() && memory.Length >= ProcessPage(MAX_PROCESSES)
    }

    constructor (memory: array<Byte>, structs: PagingStructs)
      requires structs.Valid() && memory.Length >= ProcessPage(MAX_PROCESSES)
      ensures Valid() && this.memory == memory && this.structs == structs
    {
      this.memory := memory;
      this.structs := structs;
    }

    ghost function View(slot: nat): seq<Option<Byte>>
      requires Valid() && slot < MAX_PROCESSES
      reads memory, structs.videoTable, structs.tables, structs.directories
    {
      UserView(structs.directories[slot][..], structs.Memory(), memory[..])
    }

    /** Loading writes to the child's frame alone, so no other process finds anything changed. */
    method Load(img: Image, name: seq<Byte>, child: nat) returns (entry: nat)
      requires Valid() && WellFormed(img) && 0 in name && child < MAX_PROCESSES
      modifies memory
      ensures IsEntry(entry, img, name, old(memory[..])[LoadAddress(child)..LoadAddress(child) + HEADER_SIZE])
      ensures forall i: nat :: Loadable(img, name, i) ==> InPlace(memory[..], child, Program(img, name, i))
      ensures forall other: nat, v: nat :: other != child && old(structs.Ready(other, v)) ==> structs.Ready(other, v) && View(other) == old(View(other))
    {
      ghost var before := memory[..];
      entry := LoadProgramIntoSlot(img, name, memory, child);
      forall other: nat, v: nat | other != child && old(structs.Ready(other, v))
        ensures structs.Ready(other, v) && View(other) == old(View(other))
      {
        ghost var directory, tables := structs.directories[other][..], structs.Memory();
        ViewUntouched(directory, tables, directory, tables, other, structs.videoTableFrame, v, before, memory[..], child);
      }
    }

    /** Setting up the child's tables makes it find what lies at its load address, and again no other
        process finds anything changed. */
    method SetUpChild(child: nat, videoAddress: nat, ghost loaded: seq<Byte>)
      requires Valid() && child < MAX_PROCESSES && loaded == memory[..]
      modifies structs.directories[child], structs.tables[child], structs.videoTable
      ensures structs.Ready(child, videoAddress / KB4)
      ensures forall program: seq<Byte> :: InPlace(loaded, child, program) ==> Finds(View(child), program)
      ensures forall other: nat, v: nat :: other != child && old(structs.Ready(other, v)) ==> structs.Ready(other, v) && View(other) == old(View(other))
    {
      structs.SetupProcessPaging(child, ProcessPage(child), videoAddress);
      forall program: seq<Byte> | InPlace(loaded, child, program)
        ensures Finds(View(child), program)
      {
        ProgramIsFound(structs.directories[child][..], structs.Memory(), child, structs.videoTableFrame, videoAddress / KB4, memory[..], program);
      }
      forall other: nat, v: nat | other != child && old(structs.Ready(other, v))
        ensures structs.Ready(other, v) && View(other) == old(View(other))
      {
        ViewUntouched(old(structs.directories[other][..]), old(structs.Memory()), structs.directories[other][..], structs.Memory(),
                      other, structs.videoTableFrame, v, memory[..], memory[..], child);
      }
    }

    /** The loading part of `syscall_execute`: the program is stored through the running process's
        directory, and only then are the child's tables set up.  If it has an entry point, the child
        finds the file at its link address; and whether or not, no other process that was set up
        finds anything changed. */
    method StartProgram(img: Image, name: seq<Byte>, ghost running: nat, ghost video: nat, child: nat, videoAddress: nat)
      returns (entry: nat)
      requires Valid() && WellFormed(img) && 0 in name
      requires structs.Ready(running, video) && child < MAX_PROCESSES && child != running
      modifies memory, structs.directories[child], structs.tables[child], structs.videoTable
      ensures old(Identity(structs.directories[running][..], structs.Memory(), child))
      ensures IsEntry(entry, img, name, old(memory[..])[LoadAddress(child)..LoadAddress(child) + HEADER_SIZE])
      ensures entry != 0 ==> structs.Ready(child, videoAddress / KB4)
      ensures entry != 0 ==> forall i: nat :: Loadable(img, name, i) ==> Finds(View(child), Program(img, name, i))
      ensures forall other: nat, v: nat :: other != child && old(structs.Ready(other, v)) ==> structs.Ready(other, v) && View(other) == old(View(other))
    {
      StoresGoThrough(structs.directories[running][..], structs.Memory(), running, structs.videoTableFrame, video, child);
      entry := Load(img, name, child);
      ghost var loaded := memory[..];
      if entry != 0 {
        SetUpChild(child, videoAddress, loaded);
      }
    }
  }
}
