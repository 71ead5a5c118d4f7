/** Whole-run invariants of the process table: on each terminal the processes form a stack, and
    the processor always agrees with the table about who is running. */
module Chains {
  import opened Common
  import opened Process

  /** For each terminal the slots of its processes, the root shell first. */
  type Stacks = seq<seq<nat>>

  function Top(stack: seq<nat>): nat
    requires stack != []
  {
    stack[|stack| - 1]
  }

  /** The k-th process of a terminal's stack: its parent is the one below, and it is running
      exactly when it is on top. */
  ghost predicate Link(pcbs: seq<Pcb>, stack: seq<nat>, t: nat, k: nat)
    requires k < |stack|
  {
    && stack[k] < |pcbs|
    && pcbs[stack[k]].inUse
    && pcbs[stack[k]].terminal == t
    && pcbs[stack[k]].parent == (if k == 0 then None else Some(stack[k - 1]))
    && pcbs[stack[k]].status == (if k == |stack| - 1 then Running else Blocked)
  }

  ghost predicate Stack(pcbs: seq<Pcb>, stack: seq<nat>, t: nat) {
    && stack != [] && stack[0] == t
    && (forall k :: 0 <= k < |stack| ==> Link(pcbs, stack, t, k))
    && (forall j, k :: 0 <= j < k < |stack| ==> stack[j] != stack[k])
  }

  /** The in-use PCBs are exactly the three stacks. */
  ghost predicate Chained(pcbs: seq<Pcb>, st: Stacks) {
    && |st| == NUM_TERMINALS
    && (forall t :: 0 <= t < NUM_TERMINALS ==> Stack(pcbs, st[t], t))
    && (forall i :: 0 <= i < |pcbs| && pcbs[i].inUse ==> pcbs[i].terminal < NUM_TERMINALS && i in st[pcbs[i].terminal])
  }

  /** The stack pointer, the loaded page directory and `tss.esp0` all name one running process. */
  ghost predicate Agreed(m: Machine, c: int) {
    && 0 <= c < |m.pcbs| && Runnable(m.pcbs, c)
    && InStack(c, m.context.esp)
    && m.directory == DirectoryAddress(c)
    && m.esp0 == StackBase(c)
  }

  /** Every other process has its registers saved in its own stack, or has never run. */
  ghost predicate Resumable(p: Pcb, i: nat) {
    InStack(i, p.regs.esp) || (p.regs.esp == 0 && p.status == Running)
  }

  ghost predicate Saved(m: Machine, c: int) {
    forall i :: 0 <= i < |m.pcbs| && m.pcbs[i].inUse ==>
      m.pcbs[i].directory == DirectoryAddress(i) && (i != c ==> Resumable(m.pcbs[i], i))
  }

  /** Descriptors 0 and 1 are stdin and stdout, and the RTC is on only while an RTC is open. */
  ghost predicate StandardFiles(p: Pcb) {
    && |p.files| == MAX_FILE_DESCRIPTORS
    && p.files[0].inUse && p.files[0].kind == Stdin
    && p.files[1].inUse && p.files[1].kind == Stdout
    && (forall fd :: 2 <= fd < MAX_FILE_DESCRIPTORS && p.files[fd].inUse ==> p.files[fd].kind in {Rtc, Directory, Regular})
    && (p.rtcEnabled ==> exists fd :: IsOpenRtc(p, fd))
  }

  /** What a slot is left with for its next occupant. */
  predicate CleanFiles(p: Pcb) {
    && |p.files| == MAX_FILE_DESCRIPTORS
    && (forall fd :: 2 <= fd < MAX_FILE_DESCRIPTORS ==> !p.files[fd].inUse)
    && !p.rtcEnabled
  }

  ghost predicate Filed(pcbs: seq<Pcb>) {
    forall i :: 0 <= i < |pcbs| ==> if pcbs[i].inUse then StandardFiles(pcbs[i]) else CleanFiles(pcbs[i])
  }

  ghost function Focus(m: Machine): int {
    SlotOfEsp(m.context.esp)
  }

  ghost predicate Inv(m: Machine, st: Stacks) {
    Table(m.pcbs) && Chained(m.pcbs, st) && Agreed(m, Focus(m)) && Saved(m, Focus(m)) && Filed(m.pcbs)
  }

  // ---------------------------------------------------------------------------
  // The stacks
  // ---------------------------------------------------------------------------

  /** A successful execute pushes, a halt or exception of a child pops; nothing else changes
      the stacks. */
  ghost function Pushed(st: Stacks, t: nat, slot: nat): Stacks
    requires t < |st|
  {
    st[t := st[t] + [slot]]
  }

  ghost function Popped(st: Stacks, t: nat): Stacks
    requires t < |st| && st[t] != []
  {
    st[t := st[t][..|st[t]| - 1]]
  }

  predicate Spawns(m: Machine, e: Event)
    requires Table(m.pcbs)
  {
    e.Execute? && e.start != 0 && FreeSlot(m.pcbs, 0).Some?
  }

  predicate Returns(m: Machine, e: Event)
    requires Possible(m, e)
  {
    (e.Halt? || e.Exception?) && m.pcbs[Current(e.entry)].parent.Some?
  }

  ghost function NextStacks(m: Machine, st: Stacks, e: Event): Stacks
    requires Possible(m, e) && Chained(m.pcbs, st)
    requires !e.RtcTick? ==> m.pcbs[Current(e.entry)].inUse
  {
    if Spawns(m, e) then Pushed(st, m.pcbs[Current(e.entry)].terminal, FreeSlot(m.pcbs, 0).value)
    else if Returns(m, e) then Popped(st, m.pcbs[Current(e.entry)].terminal)
    else st
  }

  /** A running process is on top of its terminal's stack. */
  lemma RunnableIsTop(pcbs: seq<Pcb>, st: Stacks, i: nat)
    requires Chained(pcbs, st) && Runnable(pcbs, i)
    ensures pcbs[i].terminal < NUM_TERMINALS && i == Top(st[pcbs[i].terminal])
  {
    var stack := st[pcbs[i].terminal];
    var k :| 0 <= k < |stack| && stack[k] == i;
    assert Link(pcbs, stack, pcbs[i].terminal, k);
  }

  lemma TopIsRunnable(pcbs: seq<Pcb>, st: Stacks, t: nat)
    requires Chained(pcbs, st) && t < NUM_TERMINALS
    ensures Runnable(pcbs, Top(st[t])) && pcbs[Top(st[t])].terminal == t
  {
    assert Link(pcbs, st[t], t, |st[t]| - 1);
  }

  /** A process that is not in use is on no stack. */
  lemma FreeIsUnstacked(pcbs: seq<Pcb>, st: Stacks, i: nat, t: nat)
    requires Chained(pcbs, st) && i < |pcbs| && !pcbs[i].inUse && t < NUM_TERMINALS
    ensures i !in st[t]
  {
    forall k | 0 <= k < |st[t]|
      ensures st[t][k] != i
    {
      assert Link(pcbs, st[t], t, k);
    }
  }

  /** Changes that leave the links of a stack alone leave the stack alone. */
  lemma StackUntouched(before: seq<Pcb>, after: seq<Pcb>, stack: seq<nat>, t: nat)
    requires Stack(before, stack, t) && |after| == |before|
    requires forall i :: 0 <= i < |before| && i in stack ==>
               && after[i].inUse == before[i].inUse && after[i].terminal == before[i].terminal
               && after[i].parent == before[i].parent && after[i].status == before[i].status
    ensures Stack(after, stack, t)
  {
    forall k | 0 <= k < |stack|
      ensures Link(after, stack, t, k)
    {
      assert Link(before, stack, t, k);
      assert stack[k] in stack;
    }
  }

  /** Two different terminals share no process. */
  lemma StacksDisjoint(pcbs: seq<Pcb>, st: Stacks, t: nat, u: nat, i: nat)
    requires Chained(pcbs, st) && t < NUM_TERMINALS && u < NUM_TERMINALS && t != u
    requires i in st[t]
    ensures i !in st[u]
  {
    var j :| 0 <= j < |st[t]| && st[t][j] == i;
    assert Link(pcbs, st[t], t, j);
    forall k | 0 <= k < |st[u]|
      ensures st[u][k] != i
    {
      assert Link(pcbs, st[u], u, k);
    }
  }

  lemma StackPushed(before: seq<Pcb>, after: seq<Pcb>, stack: seq<nat>, t: nat, slot: nat)
    requires Stack(before, stack, t) && |after| == |before|
    requires slot < |before| && slot !in stack
    requires var p := Top(stack);
             p < |before| && after == before[slot := after[slot]][p := after[p]] &&
             after[p].inUse && after[p].terminal == t && after[p].parent == before[p].parent && after[p].status == Blocked
    requires after[slot].inUse && after[slot].terminal == t && after[slot].status == Running
    requires after[slot].parent == Some(Top(stack))
    ensures Stack(after, stack + [slot], t)
  {
    var grown := stack + [slot];
    forall k | 0 <= k < |grown|
      ensures Link(after, grown, t, k)
    {
      if k < |stack| {
        assert Link(before, stack, t, k);
        assert stack[k] in stack;
      }
    }
  }

  lemma StackPopped(before: seq<Pcb>, after: seq<Pcb>, stack: seq<nat>, t: nat)
    requires Stack(before, stack, t) && |after| == |before| && |stack| >= 2
    requires var c := Top(stack); var p := stack[|stack| - 2];
             c < |before| && p < |before| &&
             after == before[c := after[c]][p := after[p]] &&
             after[p].inUse && after[p].terminal == t && after[p].parent == before[p].parent && after[p].status == Running
    ensures Stack(after, stack[..|stack| - 1], t)
  {
    var shrunk := stack[..|stack| - 1];
    forall k | 0 <= k < |shrunk|
      ensures Link(after, shrunk, t, k)
    {
      assert Link(before, stack, t, k);
    }
  }

  // ---------------------------------------------------------------------------
  // Every step keeps the invariant
  // ---------------------------------------------------------------------------

  /** However the kernel was entered, the PCB found is that of the focused process. */
  lemma ArrivesAtFocus(m: Machine, entry: Entry)
    requires Agreed(m, Focus(m)) && Arrives(m, entry)
    ensures Current(entry) == Focus(m) && InStack(Focus(m), entry.context.esp)
  {
    var c := Focus(m);
    RoundingFindsPcb(c, m.context.esp);
    RoundingFindsPcb(c, m.esp0);
    RoundingFindsPcb(c, entry.context.esp);
  }

  lemma FocusIs(m: Machine, c: nat)
    requires InStack(c, m.context.esp)
    ensures Focus(m) == c
  {
    RoundingFindsPcb(c, m.context.esp);
  }

  lemma ParentIsBelow(pcbs: seq<Pcb>, st: Stacks, c: nat)
    requires Chained(pcbs, st) && Runnable(pcbs, c)
    ensures pcbs[c].terminal < NUM_TERMINALS
    ensures var stack := st[pcbs[c].terminal];
            pcbs[c].parent == if |stack| == 1 then None else Some(stack[|stack| - 2])
    ensures pcbs[c].parent.Some? ==>
              var p := pcbs[c].parent.value;
              p < |pcbs| && p != c && pcbs[p].inUse && pcbs[p].status == Blocked && pcbs[p].terminal == pcbs[c].terminal
  {
    RunnableIsTop(pcbs, st, c);
    var stack := st[pcbs[c].terminal];
    assert Link(pcbs, stack, pcbs[c].terminal, |stack| - 1);
    if |stack| > 1 {
      assert Link(pcbs, stack, pcbs[c].terminal, |stack| - 2);
    }
  }

  lemma EntryIsPossible(m: Machine, st: Stacks, e: Event)
    requires Inv(m, st)
    requires !e.RtcTick? ==> Arrives(m, e.entry)
    requires e.Exception? ==> m.pcbs[Focus(m)].parent.Some?
    ensures Possible(m, e)
    ensures !e.RtcTick? ==> Current(e.entry) == Focus(m)
  {
    if !e.RtcTick? {
      ArrivesAtFocus(m, e.entry);
      ParentIsBelow(m.pcbs, st, Focus(m));
    }
  }

  /** A change to one PCB that touches neither its place in a stack nor its registers. */
  ghost predicate SamePlace(p: Pcb, q: Pcb) {
    q == p.(files := q.files, rtcEnabled := q.rtcEnabled, rtcInterval := q.rtcInterval, remainingTicks := q.remainingTicks)
  }

  lemma SamePlaceKeepsInv(m: Machine, m': Machine, st: Stacks)
    requires Inv(m, st)
    requires |m'.pcbs| == |m.pcbs| && Filed(m'.pcbs)
    requires forall i :: 0 <= i < |m.pcbs| ==> SamePlace(m.pcbs[i], m'.pcbs[i]) && |m'.pcbs[i].files| == MAX_FILE_DESCRIPTORS
    requires InStack(Focus(m), m'.context.esp) && m'.directory == m.directory && m'.esp0 == m.esp0
    ensures Inv(m', st)
  {
    FocusIs(m', Focus(m));
    forall t | 0 <= t < NUM_TERMINALS
      ensures Stack(m'.pcbs, st[t], t)
    {
      StackUntouched(m.pcbs, m'.pcbs, st[t], t);
    }
  }

  lemma OpenKeepsFiles(p: Pcb, found: Option<(nat, nat)>)
    requires StandardFiles(p)
    ensures StandardFiles(OpenFile(p, found).0) && SamePlace(p, OpenFile(p, found).0)
    ensures var fd := OpenFile(p, found).1;
            fd == -1 || (2 <= fd < MAX_FILE_DESCRIPTORS && !p.files[fd].inUse && forall i :: 0 <= i < fd ==> p.files[i].inUse)
  {
    var (q, fd) := OpenFile(p, found);
    if fd >= 0 {
      if q.files[fd].kind == Rtc {
        assert IsOpenRtc(q, fd);
      } else if p.rtcEnabled {
        var rtcFd :| IsOpenRtc(p, rtcFd);
        assert IsOpenRtc(q, rtcFd);
      }
    }
  }

  lemma CloseKeepsFiles(p: Pcb, fd: int)
    requires StandardFiles(p)
    ensures StandardFiles(CloseFile(p, fd).0) && SamePlace(p, CloseFile(p, fd).0)
    ensures fd in {0, 1} ==> CloseFile(p, fd) == (p, -1)
  {
    var q := CloseFile(p, fd).0;
    if q.rtcEnabled {
      var rtcFd :| IsOpenRtc(p, rtcFd);
      assert IsOpenRtc(q, rtcFd);
    }
  }

  lemma CountDownKeepsFiles(p: Pcb)
    ensures SamePlace(p, CountDown(p))
    ensures StandardFiles(p) ==> StandardFiles(CountDown(p))
    ensures CleanFiles(p) ==> CleanFiles(CountDown(p))
  {
    if StandardFiles(p) && p.rtcEnabled {
      var fd :| IsOpenRtc(p, fd);
      assert IsOpenRtc(CountDown(p), fd);
    }
  }

  lemma RtcCallKeepsFiles(p: Pcb, q: Pcb)
    requires StandardFiles(p)
    requires q == p.(rtcInterval := q.rtcInterval, remainingTicks := q.remainingTicks)
    ensures StandardFiles(q) && SamePlace(p, q)
  {
    if p.rtcEnabled {
      var fd :| IsOpenRtc(p, fd);
      assert IsOpenRtc(q, fd);
    }
  }

  /** The close loop frees every descriptor but the two that cannot be closed, and with the
      last RTC descriptor the RTC goes off. */
  lemma {:induction false} CloseFromCleans(p: Pcb, fd: nat)
    requires |p.files| == MAX_FILE_DESCRIPTORS && fd <= MAX_FILE_DESCRIPTORS
    requires p.files[0].kind == Stdin && p.files[1].kind == Stdout
    requires forall i :: 2 <= i < MAX_FILE_DESCRIPTORS && p.files[i].inUse ==> i >= fd && p.files[i].kind in {Rtc, Directory, Regular}
    requires p.rtcEnabled ==> exists i :: IsOpenRtc(p, i)
    ensures var q := CloseFrom(p, fd); CleanFiles(q) && SamePlace(p, q)
    decreases MAX_FILE_DESCRIPTORS - fd
  {
    if fd < MAX_FILE_DESCRIPTORS {
      var q := CloseFile(p, fd).0;
      if q.rtcEnabled {
        var i :| IsOpenRtc(p, i);
        assert IsOpenRtc(q, i);
      }
      CloseFromCleans(q, fd + 1);
    }
  }

  lemma HaltedIsClean(p: Pcb)
    requires StandardFiles(p)
    ensures var q := CloseFrom(p.(inUse := false), 0);
            CleanFiles(q) && SamePlace(p.(inUse := false), q)
  {
    var p' := p.(inUse := false);
    if p.rtcEnabled {
      var i :| IsOpenRtc(p, i);
      assert IsOpenRtc(p', i);
    }
    CloseFromCleans(p', 0);
  }

  /** Whoever takes over a clean slot starts with exactly stdin and stdout open and no RTC. */
  ghost predicate FreshFiles(p: Pcb) {
    && StandardFiles(p) && !p.rtcEnabled
    && forall fd :: 0 <= fd < MAX_FILE_DESCRIPTORS ==> (p.files[fd].inUse <==> fd < 2)
  }

  lemma CleanSlotStartsFresh(p: Pcb)
    requires CleanFiles(p)
    ensures FreshFiles(OpenStandard(p))
  {
  }

  lemma StartKeepsChains(m: Machine, st: Stacks, saved: Context, start: nat)
    requires Inv(m, st) && start != 0 && FreeSlot(m.pcbs, 0).Some?
    ensures var m' := Start(m, Focus(m), saved, start);
            Chained(m'.pcbs, Pushed(st, m.pcbs[Focus(m)].terminal, FreeSlot(m.pcbs, 0).value))
  {
    var c := Focus(m);
    var slot := FreeSlot(m.pcbs, 0).value;
    var t := m.pcbs[c].terminal;
    var after := Start(m, c, saved, start).pcbs;
    RunnableIsTop(m.pcbs, st, c);
    forall u | 0 <= u < NUM_TERMINALS
      ensures Stack(after, Pushed(st, t, slot)[u], u)
    {
      FreeIsUnstacked(m.pcbs, st, slot, u);
      if u == t {
        StackPushed(m.pcbs, after, st[t], t, slot);
      } else {
        StacksDisjoint(m.pcbs, st, t, u, c);
        StackUntouched(m.pcbs, after, st[u], u);
      }
    }
  }

  lemma ChildStartsFresh(free: Pcb, parentSlot: nat, terminal: nat, slot: nat, pid: nat, start: nat)
    requires CleanFiles(free)
    ensures FreshFiles(Child(free, parentSlot, terminal, slot, pid, start))
  {
    CleanSlotStartsFresh(free.(parent := Some(parentSlot), inUse := true, status := Running, slot := slot,
                               terminal := terminal, pid := pid, entrypoint := start,
                               directory := DirectoryAddress(slot)));
  }

  lemma StartKeepsInv(m: Machine, st: Stacks, saved: Context, start: nat)
    requires Inv(m, st) && InStack(Focus(m), saved.esp) && start != 0 && FreeSlot(m.pcbs, 0).Some?
    ensures var m' := Start(m, Focus(m), saved, start);
            Inv(m', Pushed(st, m.pcbs[Focus(m)].terminal, FreeSlot(m.pcbs, 0).value))
  {
    var slot := FreeSlot(m.pcbs, 0).value;
    var m' := Start(m, Focus(m), saved, start);
    RunnableIsTop(m.pcbs, st, Focus(m));
    StartKeepsChains(m, st, saved, start);
    FocusIs(m', slot);
    ChildStartsFresh(m.pcbs[slot], Focus(m), m.pcbs[Focus(m)].terminal, slot, m.nextPid, start);
    var parent := m.pcbs[Focus(m)];
    if parent.rtcEnabled {
      var fd :| IsOpenRtc(parent, fd);
      assert IsOpenRtc(m'.pcbs[Focus(m)], fd);
    }
  }

  /** A restarted root keeps its place and starts like a new occupant. */
  lemma RestartedPcb(m: Machine, c: nat)
    requires Table(m.pcbs) && c < MAX_PROCESSES && StandardFiles(m.pcbs[c]) && m.pcbs[c].parent.None?
    ensures var q := Restart(m, c).pcbs[c]; var p := m.pcbs[c];
            && FreshFiles(q) && q.inUse && q.status == Running && q.slot == p.slot && q.terminal == p.terminal
            && q.parent.None? && q.directory == p.directory
  {
    HaltedIsClean(m.pcbs[c]);
    var p := CloseFrom(m.pcbs[c].(inUse := false), 0);
    CleanSlotStartsFresh(p.(parent := None, inUse := true, status := Running, pid := m.nextPid));
  }

  lemma RestartKeepsInv(m: Machine, st: Stacks)
    requires Inv(m, st) && m.pcbs[Focus(m)].parent.None?
    ensures Inv(Restart(m, Focus(m)), st)
  {
    var c := Focus(m);
    var m' := Restart(m, c);
    RestartedPcb(m, c);
    FocusIs(m', c);
    OneChangedKeepsInv(m, st, m', m'.pcbs[c]);
  }

  /** Replacing the focused process by one in the same place. */
  lemma OneChangedKeepsInv(m: Machine, st: Stacks, m': Machine, q: Pcb)
    requires Inv(m, st) && Focus(m') == Focus(m) && m'.pcbs == m.pcbs[Focus(m) := q]
    requires var p := m.pcbs[Focus(m)];
             && StandardFiles(q) && q.inUse && q.status == p.status && q.slot == p.slot && q.terminal == p.terminal
             && q.parent == p.parent && q.directory == p.directory
    requires InStack(Focus(m), m'.context.esp) && m'.directory == m.directory && m'.esp0 == m.esp0
    ensures Inv(m', st)
  {
    forall t | 0 <= t < NUM_TERMINALS
      ensures Stack(m'.pcbs, st[t], t)
    {
      StackUntouched(m.pcbs, m'.pcbs, st[t], t);
    }
  }

  /** Ending the top process of a terminal and resuming the one below pops that terminal's stack. */
  lemma PopKeepsChains(before: seq<Pcb>, after: seq<Pcb>, st: Stacks, c: nat, p: nat)
    requires Chained(before, st) && Runnable(before, c) && before[c].parent == Some(p)
    requires p < |before| && |after| == |before|
    requires after == before[c := after[c]][p := before[p].(status := Running)] && !after[c].inUse
    ensures before[c].terminal < NUM_TERMINALS && Chained(after, Popped(st, before[c].terminal))
  {
    var t := before[c].terminal;
    ParentIsBelow(before, st, c);
    RunnableIsTop(before, st, c);
    var st' := Popped(st, t);
    forall u | 0 <= u < NUM_TERMINALS
      ensures Stack(after, st'[u], u)
    {
      if u == t {
        StackPopped(before, after, st[t], t);
      } else {
        StacksDisjoint(before, st, t, u, c);
        StacksDisjoint(before, st, t, u, p);
        StackUntouched(before, after, st[u], u);
      }
    }
    assert st[t] == st'[t] + [c];
  }

  lemma ReturnKeepsChains(m: Machine, st: Stacks, code: int)
    requires Inv(m, st) && m.pcbs[Focus(m)].parent.Some?
    ensures var p := m.pcbs[Focus(m)].parent.value;
            p < MAX_PROCESSES && Chained(ReturnToParent(m, Focus(m), p, code).pcbs, Popped(st, m.pcbs[Focus(m)].terminal))
  {
    var c := Focus(m);
    ParentIsBelow(m.pcbs, st, c);
    var p := m.pcbs[c].parent.value;
    PopKeepsChains(m.pcbs, ReturnToParent(m, c, p, code).pcbs, st, c, p);
  }

  lemma PopKeepsFiles(before: seq<Pcb>, after: seq<Pcb>, c: nat, p: nat)
    requires Filed(before) && c < |before| && p < |before| && |after| == |before| && p != c
    requires after == before[c := after[c]][p := before[p].(status := Running)]
    requires !after[c].inUse && CleanFiles(after[c]) && before[p].inUse
    ensures Filed(after)
  {
    if before[p].rtcEnabled {
      var fd :| IsOpenRtc(before[p], fd);
      assert IsOpenRtc(after[p], fd);
    }
  }

  lemma ReturnKeepsInv(m: Machine, st: Stacks, code: int)
    requires Inv(m, st) && m.pcbs[Focus(m)].parent.Some?
    ensures var p := m.pcbs[Focus(m)].parent.value;
            p < MAX_PROCESSES && Inv(ReturnToParent(m, Focus(m), p, code), Popped(st, m.pcbs[Focus(m)].terminal))
  {
    var c := Focus(m);
    ReturnKeepsChains(m, st, code);
    ParentIsBelow(m.pcbs, st, c);
    var p := m.pcbs[c].parent.value;
    var m' := ReturnToParent(m, c, p, code);
    HaltedIsClean(m.pcbs[c]);
    PopKeepsFiles(m.pcbs, m'.pcbs, c, p);
    FocusIs(m', p);
  }

  lemma ScanSkipsCurrent(c: nat)
    requires c < MAX_PROCESSES
    ensures c !in Scan(c)
  {
  }

  lemma ScheduleKeepsInv(m: Machine, st: Stacks, saved: Context)
    requires Inv(m, st) && InStack(Focus(m), saved.esp)
    ensures Inv(Schedule(m, Focus(m), saved), st)
  {
    var c := Focus(m);
    var m' := Schedule(m, c, saved);
    ScanSkipsCurrent(c);
    match FirstRunnable(m.pcbs, Scan(c))
    case None => FocusIs(m', c);
    case Some(next) =>
      FocusIs(m', next);
      forall t | 0 <= t < NUM_TERMINALS
        ensures Stack(m'.pcbs, st[t], t)
      {
        StackUntouched(m.pcbs, m'.pcbs, st[t], t);
      }
      if m.pcbs[c].rtcEnabled {
        var fd :| IsOpenRtc(m.pcbs[c], fd);
        assert IsOpenRtc(m'.pcbs[c], fd);
      }
  }

  lemma CallKeepsInv(m: Machine, st: Stacks, entry: Entry, result: (Pcb, int))
    requires Inv(m, st) && Arrives(m, entry)
    requires StandardFiles(result.0) && SamePlace(m.pcbs[Focus(m)], result.0)
    ensures 0 <= Current(entry) < MAX_PROCESSES && Inv(WithPcb(m, entry, result), st)
  {
    ArrivesAtFocus(m, entry);
    SamePlaceKeepsInv(m, WithPcb(m, entry, result), st);
  }

  lemma RtcTickKeepsInv(m: Machine, st: Stacks)
    requires Inv(m, st)
    ensures Inv(Step(m, RtcTick), st)
  {
    forall i | 0 <= i < MAX_PROCESSES { CountDownKeepsFiles(m.pcbs[i]); }
    SamePlaceKeepsInv(m, Step(m, RtcTick), st);
  }

  /** Every step keeps the invariant, and the stacks change only as a stack of processes should. */
  lemma StepKeepsInv(m: Machine, st: Stacks, e: Event)
    requires Inv(m, st) && Possible(m, e)
    ensures !e.RtcTick? ==> m.pcbs[Current(e.entry)].inUse
    ensures Inv(Step(m, e), NextStacks(m, st, e))
  {
    if e.RtcTick? {
      RtcTickKeepsInv(m, st);
    } else {
      ArrivesAtFocus(m, e.entry);
      var p := m.pcbs[Focus(m)];
      match e
      case TimerTick(entry) => ScheduleKeepsInv(m, st, entry.context);
      case Execute(entry, start) => ExecuteKeepsInv(m, st, e);
      case Halt(entry, code) => StopKeepsInv(m, st, code % 256);
      case Exception(entry) => StopKeepsInv(m, st, 256);
      case Open(entry, found) => OpenKeepsFiles(p, found); CallKeepsInv(m, st, entry, OpenFile(p, found));
      case Close(entry, fd) => CloseKeepsFiles(p, fd); CallKeepsInv(m, st, entry, CloseFile(p, fd));
      case RtcRead(entry, fd) => RtcCallKeepsFiles(p, ReadRtc(p, fd, m.eax).0); CallKeepsInv(m, st, entry, ReadRtc(p, fd, m.eax));
      case RtcWrite(entry, fd, hertz) => RtcCallKeepsFiles(p, WriteRtc(p, fd, hertz).0); CallKeepsInv(m, st, entry, WriteRtc(p, fd, hertz));
    }
  }

  lemma StopKeepsInv(m: Machine, st: Stacks, code: int)
    requires Inv(m, st)
    ensures var p := m.pcbs[Focus(m)].parent;
            && m.pcbs[Focus(m)].terminal < NUM_TERMINALS
            && (p.Some? ==> p.value < MAX_PROCESSES)
            && Inv(Stop(m, Focus(m), code), if p.Some? then Popped(st, m.pcbs[Focus(m)].terminal) else st)
  {
    ParentIsBelow(m.pcbs, st, Focus(m));
    if m.pcbs[Focus(m)].parent.Some? {
      ReturnKeepsInv(m, st, code);
    } else {
      RestartKeepsInv(m, st);
    }
  }

  lemma ExecuteKeepsInv(m: Machine, st: Stacks, e: Event)
    requires Inv(m, st) && Possible(m, e) && e.Execute?
    ensures Current(e.entry) == Focus(m)
    ensures Inv(Step(m, e), NextStacks(m, st, e))
    ensures !Spawns(m, e) ==> Step(m, e).pcbs == m.pcbs && Step(m, e).eax == -1
  {
    ArrivesAtFocus(m, e.entry);
    RunnableIsTop(m.pcbs, st, Focus(m));
    if Spawns(m, e) {
      StartKeepsInv(m, st, e.entry.context, e.start);
    } else {
      FocusIs(Step(m, e), Focus(m));
      SamePlaceKeepsInv(m, Step(m, e), st);
    }
  }

  // ---------------------------------------------------------------------------
  // Runs
  // ---------------------------------------------------------------------------

  /** A run is any sequence of possible steps. */
  ghost predicate IsRun(m: Machine, events: seq<Event>)
    decreases |events|
  {
    events == [] || (Possible(m, events[0]) && IsRun(Step(m, events[0]), events[1..]))
  }

  ghost function Run(m: Machine, events: seq<Event>): Machine
    requires IsRun(m, events)
    decreases |events|
  {
    if events == [] then m else Run(Step(m, events[0]), events[1..])
  }

  lemma PrependRun(m: Machine, e: Event, rest: seq<Event>)
    requires Possible(m, e) && IsRun(Step(m, e), rest)
    ensures IsRun(m, [e] + rest) && Run(m, [e] + rest) == Run(Step(m, e), rest)
  {
    assert ([e] + rest)[1..] == rest;
  }

  lemma {:induction false} RunThenRun(m: Machine, first: seq<Event>, second: seq<Event>)
    requires IsRun(m, first) && IsRun(Run(m, first), second)
    ensures IsRun(m, first + second) && Run(m, first + second) == Run(Run(m, first), second)
    decreases |first|
  {
    if first == [] {
      assert first + second == second;
    } else {
      RunThenRun(Step(m, first[0]), first[1..], second);
      PrependRun(m, first[0], first[1..] + second);
      HeadThenTail(first, second);
    }
  }

  /** A run may go on with any possible step. */
  lemma RunSnoc(m: Machine, events: seq<Event>, e: Event)
    requires IsRun(m, events) && Possible(Run(m, events), e)
    ensures IsRun(m, events + [e]) && Run(m, events + [e]) == Step(Run(m, events), e)
  {
    PrependRun(Run(m, events), e, []);
    assert [e] + [] == [e];
    RunThenRun(m, events, [e]);
  }

  ghost function RunStacks(m: Machine, st: Stacks, events: seq<Event>): Stacks
    requires IsRun(m, events) && Inv(m, st)
    decreases |events|
  {
    if events == [] then st
    else (
      StepKeepsInv(m, st, events[0]);
      RunStacks(Step(m, events[0]), NextStacks(m, st, events[0]), events[1..])
    )
  }

  lemma BootHolds(start: nat)
    ensures Inv(Boot(start), [[0], [1], [2]])
  {
    var m := Boot(start);
    FocusIs(m, 0);
    forall t | 0 <= t < NUM_TERMINALS
      ensures Stack(m.pcbs, [[0], [1], [2]][t], t)
    {
      assert Link(m.pcbs, [[0], [1], [2]][t], t, 0);
    }
  }

  lemma {:induction false} RunKeepsInv(m: Machine, st: Stacks, events: seq<Event>)
    requires Inv(m, st) && IsRun(m, events)
    ensures Inv(Run(m, events), RunStacks(m, st, events))
    decreases |events|
  {
    if events != [] {
      StepKeepsInv(m, st, events[0]);
      RunKeepsInv(Step(m, events[0]), NextStacks(m, st, events[0]), events[1..]);
    }
  }

  lemma RunningAreTops(pcbs: seq<Pcb>, st: Stacks, i: nat)
    requires Chained(pcbs, st) && i < |pcbs|
    ensures Runnable(pcbs, i) <==> i in [Top(st[0]), Top(st[1]), Top(st[2])]
  {
    TopIsRunnable(pcbs, st, 0);
    TopIsRunnable(pcbs, st, 1);
    TopIsRunnable(pcbs, st, 2);
    if Runnable(pcbs, i) {
      RunnableIsTop(pcbs, st, i);
    }
  }

  /** In every reachable state the in-use PCBs are three stacks, one per terminal and rooted at
      slots 0, 1 and 2, of which exactly the tops are running; the stack pointer, the page
      directory and `tss.esp0` name the same one of those tops. */
  lemma ReachableIsStacked(start: nat, events: seq<Event>)
    requires IsRun(Boot(start), events)
    ensures Inv(Boot(start), [[0], [1], [2]])
    ensures var m := Run(Boot(start), events);
            var st := RunStacks(Boot(start), [[0], [1], [2]], events);
            && Inv(m, st)
            && (forall i: nat :: i < MAX_PROCESSES ==> (Runnable(m.pcbs, i) <==> i in [Top(st[0]), Top(st[1]), Top(st[2])]))
  {
    BootHolds(start);
    RunKeepsInv(Boot(start), [[0], [1], [2]], events);
    var m := Run(Boot(start), events);
    var st := RunStacks(Boot(start), [[0], [1], [2]], events);
    forall i: nat | i < MAX_PROCESSES
      ensures Runnable(m.pcbs, i) <==> i in [Top(st[0]), Top(st[1]), Top(st[2])]
    {
      RunningAreTops(m.pcbs, st, i);
    }
  }
}
