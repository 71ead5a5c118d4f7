/** What an execute saves comes back: a blocked parent is untouched until its own child ends,
    and then resumes with exactly the saved registers and that child's status. */
module Contexts {
  import opened Common
  import opened Process
  import opened Chains

  /** The step ends a child of `p` and so resumes `p`. */
  predicate ReturnsTo(m: Machine, e: Event, p: nat)
    requires Possible(m, e)
  {
    Returns(m, e) && m.pcbs[Current(e.entry)].parent == Some(p)
  }

  /** `p` is blocked on its child `c`, its registers saved at the execute. */
  ghost predicate Waits(m: Machine, p: nat, c: nat, regs: Context) {
    && p < |m.pcbs| && m.pcbs[p].inUse && m.pcbs[p].status == Blocked && m.pcbs[p].regs == regs
    && c < |m.pcbs| && m.pcbs[c].inUse && m.pcbs[c].parent == Some(p)
  }

  /** A process has at most one child in use. */
  lemma UniqueChild(pcbs: seq<Pcb>, st: Stacks, p: nat, a: nat, b: nat)
    requires Chained(pcbs, st)
    requires a < |pcbs| && pcbs[a].inUse && pcbs[a].parent == Some(p)
    requires b < |pcbs| && pcbs[b].inUse && pcbs[b].parent == Some(p)
    ensures a == b
  {
    var t, u := pcbs[a].terminal, pcbs[b].terminal;
    var j :| 0 <= j < |st[t]| && st[t][j] == a;
    var k :| 0 <= k < |st[u]| && st[u][k] == b;
    assert Link(pcbs, st[t], t, j) && Link(pcbs, st[u], u, k);
    assert Link(pcbs, st[t], t, j - 1) && Link(pcbs, st[u], u, k - 1);
  }

  /** No step other than the end of its own child touches a process that is not running at the
      moment, beyond counting down its RTC ticks. */
  lemma UnfocusedIsUntouched(m: Machine, st: Stacks, e: Event, p: nat)
    requires Inv(m, st) && Possible(m, e) && p < MAX_PROCESSES
    requires m.pcbs[p].inUse && p != Focus(m) && !ReturnsTo(m, e, p)
    ensures Step(m, e).pcbs[p] == m.pcbs[p].(remainingTicks := Step(m, e).pcbs[p].remainingTicks)
  {
    if !e.RtcTick? {
      ArrivesAtFocus(m, e.entry);
    }
  }

  lemma ChildStays(m: Machine, st: Stacks, e: Event, p: nat, c: nat)
    requires Inv(m, st) && Possible(m, e) && c < MAX_PROCESSES
    requires m.pcbs[c].inUse && m.pcbs[c].parent == Some(p) && !ReturnsTo(m, e, p)
    ensures Step(m, e).pcbs[c].inUse && Step(m, e).pcbs[c].parent == Some(p)
  {
    if !e.RtcTick? {
      ArrivesAtFocus(m, e.entry);
      match e
      case Halt(entry, code) => StopSparesOthers(m, st, c, code % 256);
      case Exception(entry) => StopSparesOthers(m, st, c, 256);
      case Open(entry, found) => OpenKeepsFiles(m.pcbs[Focus(m)], found);
      case _ =>
    }
  }

  /** Ending the focused process leaves every other process in use under the same parent. */
  lemma StopSparesOthers(m: Machine, st: Stacks, c: nat, code: int)
    requires Inv(m, st) && c < MAX_PROCESSES && c != Focus(m) && m.pcbs[c].inUse
    requires m.pcbs[Focus(m)].parent.Some? ==> m.pcbs[Focus(m)].parent.value < MAX_PROCESSES
    ensures Stop(m, Focus(m), code).pcbs[c].inUse && Stop(m, Focus(m), code).pcbs[c].parent == m.pcbs[c].parent
  {
  }

  lemma {:induction false} WaitingLasts(m: Machine, st: Stacks, events: seq<Event>, p: nat, c: nat, regs: Context)
    requires Inv(m, st) && IsRun(m, events) && Waits(m, p, c, regs)
    requires NeverReturnsTo(m, events, p)
    ensures Waits(Run(m, events), p, c, regs)
    decreases |events|
  {
    if events != [] {
      UnfocusedIsUntouched(m, st, events[0], p);
      ChildStays(m, st, events[0], p, c);
      StepKeepsInv(m, st, events[0]);
      WaitingLasts(Step(m, events[0]), NextStacks(m, st, events[0]), events[1..], p, c, regs);
    }
  }

  ghost predicate NeverReturnsTo(m: Machine, events: seq<Event>, p: nat)
    requires IsRun(m, events)
    decreases |events|
  {
    events == [] || (!ReturnsTo(m, events[0], p) && NeverReturnsTo(Step(m, events[0]), events[1..], p))
  }

  /** The status a parent is handed: the low byte of the child's own status, or 256. */
  function ExitStatus(e: Event): int
    requires e.Halt? || e.Exception?
  {
    if e.Halt? then e.code % 256 else 256
  }

  lemma SpawnBlocksParent(m: Machine, st: Stacks, e: Event)
    requires Inv(m, st) && Possible(m, e) && Spawns(m, e)
    ensures Current(e.entry) == Focus(m)
    ensures Waits(Step(m, e), Focus(m), FreeSlot(m.pcbs, 0).value, e.entry.context)
  {
    ArrivesAtFocus(m, e.entry);
  }

  /** The end of the child `c` that `p` is waiting for. */
  lemma ChildEnds(m: Machine, st: Stacks, e: Event, p: nat, c: nat, regs: Context)
    requires Inv(m, st) && Possible(m, e) && Waits(m, p, c, regs) && ReturnsTo(m, e, p) && InStack(p, regs.esp)
    ensures var m' := Step(m, e);
            && Current(e.entry) == c
            && m'.context == regs && m'.eax == ExitStatus(e) && Agreed(m', p) && !m'.pcbs[c].inUse
  {
    ArrivesAtFocus(m, e.entry);
    UniqueChild(m.pcbs, st, p, Current(e.entry), c);
    ParentIsBelow(m.pcbs, st, c);
    StepKeepsInv(m, st, e);
    HaltedIsClean(m.pcbs[c]);
    FocusIs(Step(m, e), p);
  }

  /** Execute, then any run (the scheduler, other terminals, the child's own children) up to the
      step that resumes the parent: that step ends the very child that was started, and the
      parent is back with the stack and frame pointers it saved, its own page directory and
      kernel stack, and the child's status in eax. */
  lemma ExecuteReturnsStatus(m: Machine, st: Stacks, e: Event, events: seq<Event>, last: Event)
    requires Inv(m, st) && Possible(m, e) && Spawns(m, e)
    requires IsRun(Step(m, e), events) && NeverReturnsTo(Step(m, e), events, Focus(m))
    requires Possible(Run(Step(m, e), events), last) && ReturnsTo(Run(Step(m, e), events), last, Focus(m))
    ensures var parent := Focus(m);
            var child := FreeSlot(m.pcbs, 0).value;
            var m' := Step(Run(Step(m, e), events), last);
            && Current(last.entry) == child
            && m'.context == e.entry.context && m'.eax == ExitStatus(last) && Agreed(m', parent) && !m'.pcbs[child].inUse
  {
    var parent := Focus(m);
    var child := FreeSlot(m.pcbs, 0).value;
    SpawnBlocksParent(m, st, e);
    ArrivesAtFocus(m, e.entry);
    StepKeepsInv(m, st, e);
    var m1 := Step(m, e);
    var st1 := NextStacks(m, st, e);
    WaitingLasts(m1, st1, events, parent, child, e.entry.context);
    RunKeepsInv(m1, st1, events);
    ChildEnds(Run(m1, events), RunStacks(m1, st1, events), last, parent, child, e.entry.context);
  }

  /** While some other process is running throughout. */
  ghost predicate Away(m: Machine, events: seq<Event>, c: nat)
    requires IsRun(m, events)
    decreases |events|
  {
    Focus(m) != c && (events != [] ==> Away(Step(m, events[0]), events[1..], c))
  }

  lemma {:induction false} PreemptedStays(m: Machine, st: Stacks, events: seq<Event>, c: nat, regs: Context)
    requires Inv(m, st) && IsRun(m, events) && Away(m, events, c)
    requires c < MAX_PROCESSES && Runnable(m.pcbs, c) && m.pcbs[c].regs == regs
    ensures var m' := Run(m, events); c < |m'.pcbs| && Runnable(m'.pcbs, c) && m'.pcbs[c].regs == regs && Focus(m') != c
    decreases |events|
  {
    if events != [] {
      var e := events[0];
      if !e.RtcTick? {
        ArrivesAtFocus(m, e.entry);
        ParentIsBelow(m.pcbs, st, Focus(m));
      }
      UnfocusedIsUntouched(m, st, e, c);
      StepKeepsInv(m, st, e);
      PreemptedStays(Step(m, e), NextStacks(m, st, e), events[1..], c, regs);
    }
  }

  /** Preemption is transparent: a tick takes the processor away from a process, anything at all
      happens while others run, and the tick that comes back to it restores exactly the registers
      the first tick saved. */
  lemma PreemptionRestoresContext(m: Machine, st: Stacks, entry: Entry, events: seq<Event>, back: Entry)
    requires Inv(m, st) && Possible(m, TimerTick(entry)) && Focus(Step(m, TimerTick(entry))) != Focus(m)
    requires IsRun(Step(m, TimerTick(entry)), events) && Away(Step(m, TimerTick(entry)), events, Focus(m))
    requires var m' := Run(Step(m, TimerTick(entry)), events);
             Possible(m', TimerTick(back)) && Focus(Step(m', TimerTick(back))) == Focus(m)
    ensures Step(Run(Step(m, TimerTick(entry)), events), TimerTick(back)).context == entry.context
  {
    var c := Focus(m);
    var m1 := Step(m, TimerTick(entry));
    ArrivesAtFocus(m, entry);
    StepKeepsInv(m, st, TimerTick(entry));
    FocusIs(m.(context := entry.context), c);
    assert Runnable(m1.pcbs, c) && m1.pcbs[c].regs == entry.context;
    PreemptedStays(m1, st, events, c, entry.context);
    RunKeepsInv(m1, st, events);
    TickRestores(Run(m1, events), RunStacks(m1, st, events), back, c);
  }

  /** A tick that arrives at another process puts its saved registers back. */
  lemma TickRestores(m: Machine, st: Stacks, entry: Entry, c: nat)
    requires Inv(m, st) && Possible(m, TimerTick(entry)) && c < MAX_PROCESSES
    requires Focus(m) != c && Focus(Step(m, TimerTick(entry))) == c && InStack(c, m.pcbs[c].regs.esp)
    ensures Step(m, TimerTick(entry)).context == m.pcbs[c].regs
  {
    ArrivesAtFocus(m, entry);
    StepKeepsInv(m, st, TimerTick(entry));
    FocusIs(m.(context := entry.context), Focus(m));
    match FirstRunnable(m.pcbs, Scan(Focus(m)))
    case None =>
    case Some(next) =>
      ScanSkipsCurrent(Focus(m));
      RunnableIsTop(m.pcbs, st, next);
      NextIsFocused(m, entry, next);
  }

  lemma NextIsFocused(m: Machine, entry: Entry, next: nat)
    requires Table(m.pcbs) && next < MAX_PROCESSES && next != Current(entry) && 0 <= Current(entry) < MAX_PROCESSES
    requires Resumable(m.pcbs[next], next)
    ensures Focus(ContextSwitch(m, Current(entry), next, entry.context)) == next
  {
    FocusIs(ContextSwitch(m, Current(entry), next, entry.context), next);
  }

  /** Whenever a process is started, in a reused slot or not, exactly descriptors 0 and 1 are
      open in it and its RTC is off. */
  lemma NewOccupantStartsFresh(m: Machine, st: Stacks, e: Event)
    requires Inv(m, st) && Possible(m, e)
    requires Spawns(m, e) || ((e.Halt? || e.Exception?) && !Returns(m, e))
    ensures var slot := if e.Execute? then FreeSlot(m.pcbs, 0).value else Current(e.entry);
            Agreed(Step(m, e), slot) && FreshFiles(Step(m, e).pcbs[slot])
  {
    ArrivesAtFocus(m, e.entry);
    StepKeepsInv(m, st, e);
    if Spawns(m, e) {
      var slot := FreeSlot(m.pcbs, 0).value;
      ChildStartsFresh(m.pcbs[slot], Focus(m), m.pcbs[Focus(m)].terminal, slot, m.nextPid, e.start);
      FocusIs(Step(m, e), slot);
    } else {
      RestartedPcb(m, Focus(m));
      FocusIs(Step(m, e), Focus(m));
    }
  }

  /** In every reachable state: an open that succeeds returns the lowest free descriptor, never
      0 or 1, and closing 0 or 1 is refused. */
  lemma DescriptorsInEveryRun(m: Machine, st: Stacks, e: Event)
    requires Inv(m, st) && Possible(m, e)
    ensures var p := m.pcbs[Focus(m)];
            && (e.Open? && Step(m, e).eax != -1 ==>
                  var fd := Step(m, e).eax;
                  && 2 <= fd < MAX_FILE_DESCRIPTORS && !p.files[fd].inUse
                  && (forall i :: 0 <= i < fd ==> p.files[i].inUse)
                  && Step(m, e).pcbs[Focus(m)].files[fd].inUse)
            && (e.Close? && e.fd in {0, 1} ==> Step(m, e).eax == -1 && Step(m, e).pcbs == m.pcbs)
  {
    if !e.RtcTick? {
      ArrivesAtFocus(m, e.entry);
      var p := m.pcbs[Focus(m)];
      if e.Open? {
        OpenKeepsFiles(p, e.found);
      } else if e.Close? {
        CloseKeepsFiles(p, e.fd);
      }
    }
  }
}
