/** The system calls and interrupt handlers of kernel/syscall.c, arch/x86/task.c,
    drivers/pit.c and drivers/rtc.c, as code over the process table.  Each is proved to make
    the corresponding step of the state machine in module Process, so that from boot on the kernel
    keeps the invariant of module Chains whatever arrives. */
module Kernel {
  import opened Common
  import opened Process
  import opened Chains

  /** A terminal's root process as `kernel_run_first_program` sets it up. */
  function Shell(p: Pcb, t: nat, start: nat): (r: Pcb)
    requires |p.files| == MAX_FILE_DESCRIPTORS
    ensures |r.files| == MAX_FILE_DESCRIPTORS
  {
    OpenStandard(p.(parent := None, inUse := true, status := Running, terminal := t, pid := t,
                    entrypoint := start, directory := DirectoryAddress(t)))
  }

  /** Adding one modulo 6 walks through the scanned slots and then stops before the former slot. */
  lemma ScanAdvances(former: nat, k: nat)
    requires former < MAX_PROCESSES && k < 4
    ensures |Scan(former)| == 4
    ensures (Scan(former)[k] + 1) % MAX_PROCESSES ==
            if k < 3 then Scan(former)[k + 1] else if former == 0 then MAX_PROCESSES - 1 else former - 1
  {
  }

  lemma ScanUnfolds(pcbs: seq<Pcb>, scan: seq<nat>, k: nat)
    requires k < |scan|
    ensures FirstRunnable(pcbs, scan[k..]) ==
            if Runnable(pcbs, scan[k]) then Some(scan[k]) else FirstRunnable(pcbs, scan[k + 1..])
  {
    assert scan[k..][1..] == scan[k + 1..];
  }

  /** Each event finds the processor where the last one left it.  Nothing else is asked of it; what
      follows a stop of the machine does not matter. */
  ghost predicate Arriving(m: Machine, events: seq<Event>)
    decreases |events|
  {
    events == [] ||
    (&& (!events[0].RtcTick? ==> Arrives(m, events[0].entry))
     && (Possible(m, events[0]) ==> Arriving(Step(m, events[0]), events[1..])))
  }

  /** In a state the kernel keeps, arriving is all it takes to be handled. */
  lemma ArrivedIsEntered(m: Machine, st: Stacks, e: Event)
    requires Inv(m, st) && (!e.RtcTick? ==> Arrives(m, e.entry))
    ensures !e.RtcTick? ==> Entered(m, e.entry) && Current(e.entry) == Focus(m)
    ensures !Possible(m, e) ==> e.Exception? && m.pcbs[Focus(m)].parent.None?
  {
    if !e.RtcTick? {
      ArrivesAtFocus(m, e.entry);
      ParentIsBelow(m.pcbs, st, Focus(m));
    }
  }

  class KernelState {
    var pcbs: seq<Pcb>
    var context: Context
    var directory: int
    var esp0: int
    var nextPid: nat
    var eax: int

    ghost function State(): Machine
      reads this
    {
      Machine(pcbs, context, directory, esp0, nextPid, eax)
    }

    /** `kernel_run_first_program`: clear the table, then start the shell on each terminal. */
    constructor (memory: seq<Pcb>, start: nat)
      requires |memory| == MAX_PROCESSES
      requires forall i :: 0 <= i < MAX_PROCESSES ==>
                 memory[i] == Pcb(None, false, NoProcess, 0, 0, 0, 0, 0, Context(0, 0),
                                  seq(MAX_FILE_DESCRIPTORS, _ => Descriptor(Unset, false, 0, 0)), false, 0, 0)
      ensures State() == Boot(start)
    {
      var table := memory;
      for i := 0 to MAX_PROCESSES
        invariant |table| == MAX_PROCESSES
        invariant forall k :: 0 <= k < i ==> table[k] == memory[k].(slot := k)
        invariant forall k :: i <= k < MAX_PROCESSES ==> table[k] == memory[k]
      {
        table := table[i := table[i].(inUse := false, slot := i, status := NoProcess)];
      }
      ghost var cleared := table;
      for i := 0 to NUM_TERMINALS
        invariant |table| == MAX_PROCESSES
        invariant forall k :: 0 <= k < i ==> table[k] == Shell(cleared[k], k, start)
        invariant forall k :: i <= k < MAX_PROCESSES ==> table[k] == cleared[k]
      {
        table := table[i := Shell(table[i], i, start)];
      }
      assert table == Boot(start).pcbs;
      pcbs := table;
      directory := DirectoryAddress(0);
      esp0 := StackBase(0);
      context := Context(StackBase(0), 0);
      nextPid := NUM_TERMINALS;
      eax := 0;
    }

    /** `scheduler` */
    method Scheduler(entry: Entry)
      requires Possible(State(), TimerTick(entry))
      modifies this
      ensures State() == Step(old(State()), TimerTick(entry))
    {
      var former := Current(entry);
      context := entry.context;
      var next := NextRunnable(former);
      if next != -1 {
        ContextSwitchTo(former, next, entry.context);
      }
    }

    /** The scan loop of `scheduler`; -1 if it finds no other process to run. */
    method NextRunnable(former: nat) returns (next: int)
      requires |pcbs| == MAX_PROCESSES && former < MAX_PROCESSES
      ensures next == match FirstRunnable(pcbs, Scan(former)) case None => -1 case Some(n) => n
    {
      var last := former - 1;
      if last < 0 {
        last := last + MAX_PROCESSES;
      }
      ghost var scan := Scan(former);
      ghost var k := 0;
      var i := former + 1;
      while i != last
        invariant 0 <= k <= 4 && i == if k < 4 then scan[k] else last
        invariant FirstRunnable(pcbs, scan) == FirstRunnable(pcbs, scan[k..])
        decreases 4 - k
      {
        ScanUnfolds(pcbs, scan, k);
        // Slot 6 lies outside the table; its memory is taken not to look like a running process.
        if i < MAX_PROCESSES && pcbs[i].inUse && pcbs[i].status == Running {
          return i;
        }
        ScanAdvances(former, k);
        i := (i + 1) % MAX_PROCESSES;
        k := k + 1;
      }
      next := -1;
    }

    /** `context_switch`: a process that can be resumed is the one the stack pointer, the page
        directory and the TSS agree on afterwards, with the registers once saved for it; the other
        one has its registers saved, and no third process changes. */
    method ContextSwitchTo(from: nat, to: nat, saved: Context)
      requires Table(pcbs) && from < MAX_PROCESSES && to < MAX_PROCESSES
      modifies this
      ensures State() == ContextSwitch(old(State()), from, to, saved)
      ensures from != to && Runnable(old(pcbs), to) && Resumable(old(pcbs)[to], to) && old(pcbs)[to].directory == DirectoryAddress(to) ==>
                Agreed(State(), to) && (old(pcbs)[to].regs.esp != 0 ==> context == old(pcbs)[to].regs)
      ensures |pcbs| == MAX_PROCESSES && pcbs[from].regs == saved
      ensures forall i :: 0 <= i < MAX_PROCESSES && i != from ==> pcbs[i] == old(pcbs)[i]
    {
      directory := pcbs[to].directory;
      pcbs := pcbs[from := pcbs[from].(regs := saved)];
      esp0 := StackBase(pcbs[to].slot);
      if pcbs[to].regs.esp == 0 {
        context := Context(esp0, 0);
      } else {
        context := pcbs[to].regs;
      }
    }

    /** `rtc_handler` */
    method RtcHandler()
      requires Possible(State(), RtcTick)
      modifies this`pcbs
      ensures State() == Step(old(State()), RtcTick)
    {
      for i := 0 to MAX_PROCESSES
        invariant |pcbs| == MAX_PROCESSES
        invariant forall k :: 0 <= k < i ==> pcbs[k] == CountDown(old(pcbs)[k])
        invariant forall k :: i <= k < MAX_PROCESSES ==> pcbs[k] == old(pcbs)[k]
      {
        if pcbs[i].inUse && pcbs[i].rtcEnabled && pcbs[i].remainingTicks > 0 {
          pcbs := pcbs[i := pcbs[i].(remainingTicks := pcbs[i].remainingTicks - 1)];
        }
      }
    }

    /** `syscall_execute`, given the entry point the loader found (0 for none). */
    method SyscallExecute(entry: Entry, start: nat)
      requires Possible(State(), Execute(entry, start))
      modifies this
      ensures State() == Step(old(State()), Execute(entry, start))
    {
      var parent := Current(entry);
      context := entry.context;
      var slot := FindFreeSlot();
      if slot == -1 || start == 0 {
        eax := -1;
        return;
      }
      var child := pcbs[slot].(slot := slot, entrypoint := start, directory := DirectoryAddress(slot));
      directory := child.directory;
      child := child.(parent := Some(parent), inUse := true, pid := nextPid,
                      terminal := pcbs[parent].terminal, status := Running);
      nextPid := Unsigned32(nextPid + 1);
      var blocked := pcbs[parent].(status := Blocked);
      child := OpenStandard(child);
      esp0 := StackBase(slot);
      blocked := blocked.(regs := entry.context);
      pcbs := pcbs[slot := child][parent := blocked];
      context := Context(esp0, 0);
    }

    /** The slot search of `syscall_execute`. */
    method FindFreeSlot() returns (slot: int)
      requires |pcbs| == MAX_PROCESSES
      ensures slot == match FreeSlot(pcbs, 0) case None => -1 case Some(s) => s
    {
      for i := 0 to MAX_PROCESSES
        invariant FreeSlot(pcbs, 0) == FreeSlot(pcbs, i)
      {
        if !pcbs[i].inUse {
          return i;
        }
      }
      slot := -1;
    }

    /** `halt_program`: reached from the halt system call with the low byte of its argument, and
        from an exception with 256. */
    method HaltProgram(entry: Entry, code: int)
      requires Table(pcbs) && 0 <= Current(entry) < MAX_PROCESSES
      requires pcbs[Current(entry)].parent.Some? ==> pcbs[Current(entry)].parent.value < MAX_PROCESSES
      modifies this
      ensures State() == Stop(old(State()), Current(entry), code)
    {
      var current := Current(entry);
      var p := CloseAll(pcbs[current].(inUse := false));
      if p.parent == None {
        RestartRoot(current, p);
      } else {
        ResumeParent(current, p, code);
      }
    }

    /** The close loop of `halt_program`. */
    method CloseAll(was: Pcb) returns (p: Pcb)
      requires |was.files| == MAX_FILE_DESCRIPTORS
      ensures p == CloseFrom(was, 0)
    {
      p := was;
      for i := 0 to MAX_FILE_DESCRIPTORS
        invariant |p.files| == MAX_FILE_DESCRIPTORS
        invariant CloseFrom(p, i) == CloseFrom(was, 0)
      {
        var _, q := CloseDescriptor(p, i);
        p := q;
      }
    }

    /** The last part of `halt_program` for a process without a parent: it runs again in its own
        place as a new occupant would, and no other process changes. */
    method RestartRoot(current: nat, p: Pcb)
      requires Table(pcbs) && current < MAX_PROCESSES && |p.files| == MAX_FILE_DESCRIPTORS
      requires p == CloseFrom(pcbs[current].(inUse := false), 0)
      modifies this
      ensures State() == Restart(old(State()), current)
      ensures StandardFiles(old(pcbs)[current]) && p.parent.None? ==>
                FreshFiles(pcbs[current]) && pcbs[current].terminal == old(pcbs)[current].terminal && pcbs[current].parent.None?
      ensures old(directory) == DirectoryAddress(current) ==> Agreed(State(), current)
      ensures forall i :: 0 <= i < MAX_PROCESSES && i != current ==> pcbs[i] == old(pcbs)[i]
    {
      var again := p.(parent := None, inUse := true, pid := nextPid, status := Running);
      nextPid := Unsigned32(nextPid + 1);
      again := OpenStandard(again);
      pcbs := pcbs[current := again];
      esp0 := StackBase(again.slot);
      context := Context(esp0, 0);
      if StandardFiles(old(pcbs)[current]) && p.parent.None? {
        RestartedPcb(old(State()), current);
      }
    }

    /** The last part of `halt_program` for a child: the parent it was blocking runs again, agreed on
        by stack pointer, directory and TSS, with the registers it saved and the status in eax; the
        child's slot is clean, and no third process changes. */
    method ResumeParent(current: nat, p: Pcb, code: int)
      requires Table(pcbs) && current < MAX_PROCESSES
      requires p == CloseFrom(pcbs[current].(inUse := false), 0)
      requires p.parent.Some? && p.parent.value < MAX_PROCESSES
      modifies this
      ensures State() == ReturnToParent(old(State()), current, p.parent.value, code)
      ensures var parent := p.parent.value; var was := old(pcbs)[parent];
              && context == was.regs && eax == code
              && (current != parent && was.inUse && was.directory == DirectoryAddress(parent) && InStack(parent, was.regs.esp) ==>
                    Agreed(State(), parent))
      ensures StandardFiles(old(pcbs)[current]) && current != p.parent.value ==> !pcbs[current].inUse && CleanFiles(pcbs[current])
      ensures forall i :: 0 <= i < MAX_PROCESSES && i != current && i != p.parent.value ==> pcbs[i] == old(pcbs)[i]
    {
      var parent := p.parent.value;
      pcbs := pcbs[current := p.(status := NoProcess)];
      pcbs := pcbs[parent := pcbs[parent].(status := Running)];
      directory := pcbs[parent].directory;
      esp0 := StackBase(pcbs[parent].slot);
      context := pcbs[parent].regs;
      eax := code;
      if StandardFiles(old(pcbs)[current]) {
        HaltedIsClean(old(pcbs)[current]);
      }
    }

    /** `syscall_close` on one process's file array. */
    method CloseDescriptor(p: Pcb, fd: int) returns (result: int, q: Pcb)
      requires |p.files| == MAX_FILE_DESCRIPTORS
      ensures (q, result) == CloseFile(p, fd)
    {
      if fd < 0 || fd >= MAX_FILE_DESCRIPTORS {
        return -1, p;
      }
      if !p.files[fd].inUse {
        return -1, p;
      }
      if p.files[fd].kind in {Unset, Stdin, Stdout} {  // no operations, or none to close with
        return -1, p;
      }
      q := p.(files := p.files[fd := p.files[fd].(inUse := false)]);
      if q.files[fd].kind == Rtc {
        q := q.(rtcEnabled := false);
      }
      result := 0;
    }

    method SyscallClose(entry: Entry, fd: int)
      requires Possible(State(), Close(entry, fd))
      modifies this
      ensures State() == Step(old(State()), Close(entry, fd))
    {
      var result, q := CloseDescriptor(pcbs[Current(entry)], fd);
      pcbs := pcbs[Current(entry) := q];
      eax := result;
      context := entry.context;
    }

    /** `syscall_open`, given what the directory lookup found. */
    method SyscallOpen(entry: Entry, found: Option<(nat, nat)>)
      requires Possible(State(), Open(entry, found))
      modifies this
      ensures State() == Step(old(State()), Open(entry, found))
    {
      context := entry.context;
      var p := pcbs[Current(entry)];
      var fd := FindFreeDescriptor(p.files);
      if fd == -1 || found.None? || found.value.0 > 2 {
        eax := -1;
        return;
      }
      var kind := KindOfType(found.value.0);
      if kind == Rtc {
        p := p.(rtcEnabled := true, rtcInterval := MAX_FREQ / 2);
        p := p.(remainingTicks := p.rtcInterval);
      }
      p := p.(files := p.files[fd := Descriptor(kind, true, found.value.1, 0)]);
      pcbs := pcbs[Current(entry) := p];
      eax := fd;
    }

    /** The descriptor search of `syscall_open`. */
    method FindFreeDescriptor(files: seq<Descriptor>) returns (fd: int)
      requires |files| == MAX_FILE_DESCRIPTORS
      ensures fd == match LowestFree(files, 0) case None => -1 case Some(i) => i
    {
      for i := 0 to MAX_FILE_DESCRIPTORS
        invariant LowestFree(files, 0) == LowestFree(files, i)
      {
        if !files[i].inUse {
          return i;
        }
      }
      fd := -1;
    }

    /** `syscall_halt` */
    method SyscallHalt(entry: Entry, code: nat)
      requires Possible(State(), Halt(entry, code))
      modifies this
      ensures State() == Step(old(State()), Halt(entry, code))
    {
      HaltProgram(entry, code % 256);
    }

    /** `exception_handler`: in a process with a parent the end of that process; in any other the
        machine stops. */
    method ExceptionHandler(entry: Entry) returns (stopped: bool)
      requires Entered(State(), entry)
      modifies this
      ensures stopped == !old(Possible(State(), Exception(entry)))
      ensures stopped ==> State() == old(State())
      ensures !stopped ==> State() == Step(old(State()), Exception(entry))
    {
      if pcbs[Current(entry)].parent == None {
        return true;
      }
      HaltProgram(entry, 256);
      stopped := false;
    }

    /** `rtc_read` through `syscall_read`, at the point where the wait ends or goes on. */
    method SyscallRtcRead(entry: Entry, fd: int)
      requires Possible(State(), RtcRead(entry, fd))
      modifies this
      ensures State() == Step(old(State()), RtcRead(entry, fd))
    {
      context := entry.context;
      var p := pcbs[Current(entry)];
      if !IsOpenRtc(p, fd) || !p.rtcEnabled {
        eax := -1;
      } else if p.remainingTicks == 0 {
        pcbs := pcbs[Current(entry) := p.(remainingTicks := p.rtcInterval)];
        eax := 0;
      }
    }

    /** `rtc_write` through `syscall_write`. */
    method SyscallRtcWrite(entry: Entry, fd: int, hertz: bv32)
      requires Possible(State(), RtcWrite(entry, fd, hertz))
      modifies this
      ensures State() == Step(old(State()), RtcWrite(entry, fd, hertz))
    {
      context := entry.context;
      var p := pcbs[Current(entry)];
      eax := -1;
      if !IsOpenRtc(p, fd) {
        return;
      }
      if hertz < MIN_FREQ as bv32 || hertz > MAX_FREQ as bv32 {
        return;
      }
      if hertz & (hertz - 1) != 0 {
        return;
      }
      pcbs := pcbs[Current(entry) := p.(rtcInterval := MAX_FREQ / (hertz as int))];
      eax := 0;
    }

    /** The interrupt vectors. */
    method Handle(e: Event) returns (stopped: bool)
      requires Table(pcbs) && (!e.RtcTick? ==> Entered(State(), e.entry))
      modifies this
      ensures stopped == !old(Possible(State(), e))
      ensures stopped ==> State() == old(State())
      ensures !stopped ==> State() == Step(old(State()), e)
    {
      stopped := false;
      match e
      case TimerTick(entry) => Scheduler(entry);
      case RtcTick => RtcHandler();
      case Execute(entry, start) => SyscallExecute(entry, start);
      case Halt(entry, code) => SyscallHalt(entry, code);
      case Exception(entry) => stopped := ExceptionHandler(entry);
      case Open(entry, found) => SyscallOpen(entry, found);
      case Close(entry, fd) => SyscallClose(entry, fd);
      case RtcRead(entry, fd) => SyscallRtcRead(entry, fd);
      case RtcWrite(entry, fd, hertz) => SyscallRtcWrite(entry, fd, hertz);
    }

    /** From boot, whatever arrives, the kernel's run is a run of the state machine and keeps its
        invariant; it ends early only at an exception in a root shell. */
    method Serve(ghost start: nat, events: seq<Event>) returns (served: nat)
      requires State() == Boot(start) && Arriving(State(), events)
      modifies this
      ensures served <= |events| && IsRun(Boot(start), events[..served])
      ensures State() == Run(Boot(start), events[..served])
      ensures Inv(Boot(start), [[0], [1], [2]])
      ensures Inv(State(), RunStacks(Boot(start), [[0], [1], [2]], events[..served]))
      ensures served < |events| ==> events[served].Exception? && pcbs[Focus(State())].parent.None?
    {
      ghost var boot, stacks := Boot(start), [[0], [1], [2]];
      BootHolds(start);
      served := 0;
      while served < |events|
        invariant served <= |events| && IsRun(boot, events[..served]) && State() == Run(boot, events[..served])
        invariant Arriving(State(), events[served..])
      {
        ghost var before := State();
        StepOver(events, served);
        RunKeepsInv(boot, stacks, events[..served]);
        ArrivedIsEntered(before, RunStacks(boot, stacks, events[..served]), events[served]);
        var stopped := Handle(events[served]);
        if stopped {
          return;
        }
        RunSnoc(boot, events[..served], events[served]);
        served := served + 1;
      }
      RunKeepsInv(boot, stacks, events[..served]);
    }
  }
}
