/** The process table and the processor state that depends on it, as a state machine: execute,
    halt, exceptions, timer and RTC interrupts, and the system calls on descriptors.

    The state is the one after `kernel_run_first_program`.  Every step runs with interrupts
    off, so a run is a sequence of steps. */
module Process {
  import opened Common

  const MAX_FILE_DESCRIPTORS := 8
  const KERNEL_STACK_SIZE := 0x2000
  const MAX_FREQ := 1024
  const MIN_FREQ := 2

  // ---------------------------------------------------------------------------
  // Addresses
  // ---------------------------------------------------------------------------

  /** `get_kernel_stack_base_from_slot`: where slot `s`'s kernel stack starts (it grows down). */
  function StackBase(s: nat): int {
    KERNEL_PAGE_END - KERNEL_STACK_SIZE * s
  }

  /** `get_pcb_from_slot`: the PCB sits at the far end of the slot's kernel stack. */
  function PcbAddress(s: nat): int {
    KERNEL_PAGE_END - KERNEL_STACK_SIZE * (s + 1)
  }

  /** `get_pcb_from_esp`: round the byte below the stack pointer down to 8 KB. */
  function PcbFromEsp(esp: int): int {
    (esp - 1) / KERNEL_STACK_SIZE * KERNEL_STACK_SIZE
  }

  /** Address of slot `s`'s page directory, at 124 MB. */
  function DirectoryAddress(s: nat): int {
    31 * 0x40_0000 + 0x4000 * s
  }

  predicate InStack(s: nat, esp: int) {
    PcbAddress(s) < esp <= StackBase(s)
  }

  /** The slot whose PCB is at the given address. */
  function SlotOfPcb(address: int): int {
    (KERNEL_PAGE_END - address) / KERNEL_STACK_SIZE - 1
  }

  function SlotOfEsp(esp: int): int {
    SlotOfPcb(PcbFromEsp(esp))
  }

  /** Any stack pointer into a slot's stack, even one that has not been pushed to yet, finds
      that slot's PCB, and no other stack pointer does. */
  lemma RoundingFindsPcb(s: nat, esp: int)
    ensures InStack(s, esp) <==> PcbFromEsp(esp) == PcbAddress(s)
    ensures InStack(s, esp) ==> SlotOfEsp(esp) == s
  {
  }

  // ---------------------------------------------------------------------------
  // State
  // ---------------------------------------------------------------------------

  datatype Status = NoProcess | Running | Blocked

  /** Which operations table a descriptor points at; `Unset` is the null pointer of a zeroed PCB. */
  datatype Kind = Unset | Stdin | Stdout | Rtc | Directory | Regular

  datatype Descriptor = Descriptor(kind: Kind, inUse: bool, inode: nat, position: nat)

  datatype Context = Context(esp: int, ebp: int)

  datatype Pcb = Pcb(
    parent: Option<nat>,
    inUse: bool,
    status: Status,
    slot: nat,
    terminal: nat,
    pid: nat,
    entrypoint: nat,
    directory: int,
    regs: Context,
    files: seq<Descriptor>,
    rtcEnabled: bool,
    rtcInterval: nat,
    remainingTicks: nat)

  /** The PCBs; the kernel stack pointer; the loaded page directory (cr3); `tss.esp0`; the
      value last put in eax for a process returning from a system call. */
  datatype Machine = Machine(
    pcbs: seq<Pcb>,
    context: Context,
    directory: int,
    esp0: int,
    nextPid: nat,
    eax: int)

  /** How the processor got into the kernel: from user mode the stack is reloaded from the
      TSS, from kernel mode (an interrupt inside a waiting system call) it is kept.  Either
      way some bytes are pushed, and `context` is what the registers then hold. */
  datatype Entry = Entry(fromUser: bool, context: Context)

  /** `Execute` carries the entry point the loader finds, 0 if it finds none; `Open` the type
      and inode of the directory entry found. */
  datatype Event =
    | TimerTick(entry: Entry)
    | RtcTick
    | Execute(entry: Entry, start: nat)
    | Halt(entry: Entry, code: nat)
    | Exception(entry: Entry)
    | Open(entry: Entry, found: Option<(nat, nat)>)
    | Close(entry: Entry, fd: int)
    | RtcRead(entry: Entry, fd: int)
    | RtcWrite(entry: Entry, fd: int, hertz: bv32)

  predicate Table(pcbs: seq<Pcb>) {
    && |pcbs| == MAX_PROCESSES
    && forall i :: 0 <= i < MAX_PROCESSES ==> pcbs[i].slot == i && |pcbs[i].files| == MAX_FILE_DESCRIPTORS
  }

  /** The PCB that `get_current_pcb` finds. */
  function Current(entry: Entry): int {
    SlotOfEsp(entry.context.esp)
  }

  /** The kernel stack has not run into the PCB or out of its slot. */
  predicate Arrives(m: Machine, entry: Entry) {
    PcbFromEsp(entry.context.esp) == PcbFromEsp(if entry.fromUser then m.esp0 else m.context.esp)
  }

  /** The entry finds a PCB of the table, and that PCB's parent is in the table too. */
  predicate Entered(m: Machine, entry: Entry) {
    && Table(m.pcbs)
    && Arrives(m, entry)
    && 0 <= Current(entry) < MAX_PROCESSES
    && var parent := m.pcbs[Current(entry)].parent;
    && (parent.Some? ==> parent.value < MAX_PROCESSES)
  }

  /** The machine goes on: it stops, with interrupts off, at an exception in a process without a
      parent. */
  predicate Possible(m: Machine, e: Event) {
    && Table(m.pcbs)
    && (!e.RtcTick? ==>
          && Entered(m, e.entry)
          && (e.Exception? ==> m.pcbs[Current(e.entry)].parent.Some?))
  }

  // ---------------------------------------------------------------------------
  // Descriptors
  // ---------------------------------------------------------------------------

  /** The operations tables of stdin and stdout have no close entry. */
  predicate Closable(d: Descriptor) {
    d.inUse && d.kind in {Rtc, Directory, Regular}
  }

  /** `syscall_close` on a descriptor of the given process; `rtc_close` disables its RTC. */
  function CloseFile(p: Pcb, fd: int): (r: (Pcb, int))
    requires |p.files| == MAX_FILE_DESCRIPTORS
    ensures |r.0.files| == MAX_FILE_DESCRIPTORS
  {
    if fd < 0 || fd >= MAX_FILE_DESCRIPTORS || !Closable(p.files[fd]) then (p, -1)
    else (p.(files := p.files[fd := p.files[fd].(inUse := false)],
             rtcEnabled := if p.files[fd].kind == Rtc then false else p.rtcEnabled), 0)
  }

  /** The close loop of `halt_program`. */
  function CloseFrom(p: Pcb, fd: nat): (r: Pcb)
    requires |p.files| == MAX_FILE_DESCRIPTORS && fd <= MAX_FILE_DESCRIPTORS
    ensures |r.files| == MAX_FILE_DESCRIPTORS
    ensures r == p.(files := r.files, rtcEnabled := r.rtcEnabled)
    decreases MAX_FILE_DESCRIPTORS - fd
  {
    if fd == MAX_FILE_DESCRIPTORS then p else CloseFrom(CloseFile(p, fd).0, fd + 1)
  }

  /** `open_stdin_and_stdout` */
  function OpenStandard(p: Pcb): (r: Pcb)
    requires |p.files| == MAX_FILE_DESCRIPTORS
    ensures |r.files| == MAX_FILE_DESCRIPTORS
  {
    p.(files := p.files[0 := p.files[0].(kind := Stdin, inUse := true, position := 0)]
                       [1 := p.files[1].(kind := Stdout, inUse := true, position := 0)])
  }

  /** The lowest free descriptor from `fd` on. */
  function LowestFree(files: seq<Descriptor>, fd: nat): (r: Option<nat>)
    requires fd <= |files|
    ensures r.Some? ==> fd <= r.value < |files| && !files[r.value].inUse
    ensures r.Some? ==> forall i :: fd <= i < r.value ==> files[i].inUse
    ensures r.None? ==> forall i :: fd <= i < |files| ==> files[i].inUse
    decreases |files| - fd
  {
    if fd == |files| then None else if !files[fd].inUse then Some(fd) else LowestFree(files, fd + 1)
  }

  function KindOfType(fileType: nat): (k: Kind)
    requires fileType <= 2
  {
    if fileType == 0 then Rtc else if fileType == 1 then Directory else Regular
  }

  /** `syscall_open`, with `rtc_open` setting the RTC to 2 Hz. */
  function OpenFile(p: Pcb, found: Option<(nat, nat)>): (r: (Pcb, int))
    requires |p.files| == MAX_FILE_DESCRIPTORS
    ensures |r.0.files| == MAX_FILE_DESCRIPTORS
  {
    match LowestFree(p.files, 0)
    case None => (p, -1)
    case Some(fd) =>
      if found.None? || found.value.0 > 2 then (p, -1)
      else
        var kind := KindOfType(found.value.0);
        var q := p.(files := p.files[fd := Descriptor(kind, true, found.value.1, 0)]);
        (if kind == Rtc then
           q.(rtcEnabled := true, rtcInterval := MAX_FREQ / 2, remainingTicks := MAX_FREQ / 2)
         else q, fd as int)
  }

  // ---------------------------------------------------------------------------
  // Virtual RTC
  // ---------------------------------------------------------------------------

  /** One process's share of `rtc_handler`. */
  function CountDown(p: Pcb): Pcb {
    if p.inUse && p.rtcEnabled && p.remainingTicks > 0 then p.(remainingTicks := p.remainingTicks - 1) else p
  }

  predicate IsOpenRtc(p: Pcb, fd: int) {
    0 <= fd < |p.files| && p.files[fd].inUse && p.files[fd].kind == Rtc
  }

  /** A read returns at zero and rearms the countdown; before that it is still waiting. */
  predicate RtcReturns(p: Pcb, fd: int) {
    IsOpenRtc(p, fd) && p.rtcEnabled && p.remainingTicks == 0
  }

  function ReadRtc(p: Pcb, fd: int, eax: int): (Pcb, int) {
    if !IsOpenRtc(p, fd) || !p.rtcEnabled then (p, -1)
    else if p.remainingTicks > 0 then (p, eax)
    else (p.(remainingTicks := p.rtcInterval), 0)
  }

  /** The test of `rtc_write`: in range, and no bit in common with its predecessor. */
  predicate AcceptsRate(hertz: bv32) {
    MIN_FREQ as bv32 <= hertz <= MAX_FREQ as bv32 && hertz & (hertz - 1) == 0
  }

  function WriteRtc(p: Pcb, fd: int, hertz: bv32): (Pcb, int) {
    if !IsOpenRtc(p, fd) || !AcceptsRate(hertz) then (p, -1)
    else (p.(rtcInterval := MAX_FREQ / (hertz as int)), 0)
  }

  // ---------------------------------------------------------------------------
  // Scheduling
  // ---------------------------------------------------------------------------

  predicate Runnable(pcbs: seq<Pcb>, i: nat) {
    i < |pcbs| && pcbs[i].inUse && pcbs[i].status == Running
  }

  /** The slots `scheduler` looks at, in order.  From slot 5 the scan starts one past the
      table, where memory is taken to hold no running process, and then jumps to slot 1. */
  function Scan(current: nat): seq<nat> {
    if current == 5 then [6, 1, 2, 3]
    else [(current + 1) % 6, (current + 2) % 6, (current + 3) % 6, (current + 4) % 6]
  }

  function FirstRunnable(pcbs: seq<Pcb>, slots: seq<nat>): (r: Option<nat>)
    ensures r.Some? ==> r.value in slots && Runnable(pcbs, r.value)
  {
    if slots == [] then None
    else if Runnable(pcbs, slots[0]) then Some(slots[0])
    else FirstRunnable(pcbs, slots[1..])
  }

  /** `context_switch`: save the registers, load the other process's directory and kernel
      stack, and resume it where it was saved or, if it never ran, start it in user mode. */
  function ContextSwitch(m: Machine, from: nat, to: nat, saved: Context): (r: Machine)
    requires from < |m.pcbs| && to < |m.pcbs|
  {
    var pcbs := m.pcbs[from := m.pcbs[from].(regs := saved)];
    var next := pcbs[to];
    var base := StackBase(next.slot);
    m.(pcbs := pcbs,
       directory := next.directory,
       esp0 := base,
       context := if next.regs.esp == 0 then Context(base, 0) else next.regs)
  }

  function Schedule(m: Machine, current: nat, saved: Context): (r: Machine)
    requires Table(m.pcbs) && current < MAX_PROCESSES
  {
    match FirstRunnable(m.pcbs, Scan(current))
    case None => m.(context := saved)
    case Some(next) => ContextSwitch(m, current, next, saved)
  }

  // ---------------------------------------------------------------------------
  // Execute and halt
  // ---------------------------------------------------------------------------

  /** The lowest slot not in use, from `i` on. */
  function FreeSlot(pcbs: seq<Pcb>, i: nat): (r: Option<nat>)
    requires i <= |pcbs|
    ensures r.Some? ==> i <= r.value < |pcbs| && !pcbs[r.value].inUse
    ensures r.Some? ==> forall k :: i <= k < r.value ==> pcbs[k].inUse
    ensures r.None? ==> forall k :: i <= k < |pcbs| ==> pcbs[k].inUse
    decreases |pcbs| - i
  {
    if i == |pcbs| then None else if !pcbs[i].inUse then Some(i) else FreeSlot(pcbs, i + 1)
  }

  /** The PCB of a newly started child. */
  function Child(free: Pcb, parentSlot: nat, terminal: nat, slot: nat, pid: nat, start: nat): (r: Pcb)
    requires |free.files| == MAX_FILE_DESCRIPTORS
    ensures |r.files| == MAX_FILE_DESCRIPTORS
  {
    OpenStandard(free.(parent := Some(parentSlot), inUse := true, status := Running, slot := slot,
                       terminal := terminal, pid := pid, entrypoint := start,
                       directory := DirectoryAddress(slot)))
  }

  /** `syscall_execute` by the process in slot `parent`. */
  function Start(m: Machine, parent: nat, saved: Context, start: nat): (r: Machine)
    requires Table(m.pcbs) && parent < MAX_PROCESSES
  {
    match FreeSlot(m.pcbs, 0)
    case None => m.(context := saved, eax := -1)
    case Some(slot) =>
      if start == 0 then m.(context := saved, eax := -1)
      else
        var child := Child(m.pcbs[slot], parent, m.pcbs[parent].terminal, slot, m.nextPid, start);
        m.(pcbs := m.pcbs[slot := child][parent := m.pcbs[parent].(status := Blocked, regs := saved)],
           directory := child.directory,
           esp0 := StackBase(slot),
           context := Context(StackBase(slot), 0),
           nextPid := Unsigned32(m.nextPid + 1))
  }

  /** `halt_program` in a process without a parent: it is started again in its own slot. */
  function Restart(m: Machine, current: nat): (r: Machine)
    requires Table(m.pcbs) && current < MAX_PROCESSES
  {
    var p := CloseFrom(m.pcbs[current].(inUse := false), 0);
    var again := OpenStandard(p.(parent := None, inUse := true, status := Running, pid := m.nextPid));
    m.(pcbs := m.pcbs[current := again],
       esp0 := StackBase(p.slot),
       context := Context(StackBase(p.slot), 0),
       nextPid := Unsigned32(m.nextPid + 1))
  }

  /** `halt_program` in a child: its parent runs again from where it called execute. */
  function ReturnToParent(m: Machine, current: nat, parent: nat, code: int): (r: Machine)
    requires Table(m.pcbs) && current < MAX_PROCESSES && parent < MAX_PROCESSES
  {
    var p := CloseFrom(m.pcbs[current].(inUse := false), 0).(status := NoProcess);
    var pcbs := m.pcbs[current := p];
    var resumed := pcbs[parent].(status := Running);
    m.(pcbs := pcbs[parent := resumed],
       directory := resumed.directory,
       esp0 := StackBase(resumed.slot),
       context := resumed.regs,
       eax := code)
  }

  function Stop(m: Machine, current: nat, code: int): (r: Machine)
    requires Table(m.pcbs) && current < MAX_PROCESSES
    requires m.pcbs[current].parent.Some? ==> m.pcbs[current].parent.value < MAX_PROCESSES
  {
    match m.pcbs[current].parent
    case None => Restart(m, current)
    case Some(parent) => ReturnToParent(m, current, parent, code)
  }

  // ---------------------------------------------------------------------------
  // Steps and runs
  // ---------------------------------------------------------------------------

  function WithPcb(m: Machine, entry: Entry, result: (Pcb, int)): Machine
    requires Table(m.pcbs) && 0 <= Current(entry) < MAX_PROCESSES
  {
    m.(pcbs := m.pcbs[Current(entry) := result.0], eax := result.1, context := entry.context)
  }

  function Step(m: Machine, e: Event): Machine
    requires Possible(m, e)
  {
    match e
    case TimerTick(entry) => Schedule(m, Current(entry), entry.context)
    case RtcTick => m.(pcbs := seq(MAX_PROCESSES, i requires 0 <= i < MAX_PROCESSES => CountDown(m.pcbs[i])))
    case Execute(entry, start) => Start(m, Current(entry), entry.context, start)
    case Halt(entry, code) => Stop(m, Current(entry), code % 256)
    case Exception(entry) => Stop(m, Current(entry), 256)
    case Open(entry, found) => WithPcb(m, entry, OpenFile(m.pcbs[Current(entry)], found))
    case Close(entry, fd) => WithPcb(m, entry, CloseFile(m.pcbs[Current(entry)], fd))
    case RtcRead(entry, fd) => WithPcb(m, entry, ReadRtc(m.pcbs[Current(entry)], fd, m.eax))
    case RtcWrite(entry, fd, hertz) => WithPcb(m, entry, WriteRtc(m.pcbs[Current(entry)], fd, hertz))
  }

  /** `kernel_run_first_program`, with PCB memory zeroed at boot: a shell on each terminal. */
  function Boot(start: nat): (m: Machine)
  {
    var zero := Pcb(None, false, NoProcess, 0, 0, 0, 0, 0, Context(0, 0),
                    seq(MAX_FILE_DESCRIPTORS, _ => Descriptor(Unset, false, 0, 0)), false, 0, 0);
    var pcbs := seq(MAX_PROCESSES, i requires 0 <= i < MAX_PROCESSES =>
      if i < NUM_TERMINALS then
        OpenStandard(zero.(inUse := true, status := Running, slot := i, terminal := i, pid := i,
                           entrypoint := start, directory := DirectoryAddress(i)))
      else zero.(slot := i));
    Machine(pcbs, Context(StackBase(0), 0), DirectoryAddress(0), StackBase(0), NUM_TERMINALS, 0)
  }
}
