/** Process identifiers: they come from one 32-bit counter that is never set back. */
module Pids {
  import opened Common
  import opened Process
  import opened Chains
  import opened Scheduling

  /** No two processes in use share an identifier. */
  ghost predicate DistinctPids(m: Machine) {
    forall i, j :: 0 <= i < j < |m.pcbs| && m.pcbs[i].inUse && m.pcbs[j].inUse ==> m.pcbs[i].pid != m.pcbs[j].pid
  }

  /** The step starts a process: a child, or a root that is started again. */
  predicate Starts(m: Machine, e: Event)
    requires Possible(m, e)
  {
    Spawns(m, e) || ((e.Halt? || e.Exception?) && !Returns(m, e))
  }

  /** Where it starts it. */
  function StartedSlot(m: Machine, e: Event): int
    requires Possible(m, e) && Starts(m, e)
  {
    if e.Execute? then FreeSlot(m.pcbs, 0).value else Current(e.entry)
  }

  /** No process in use has an identifier it did not have before. */
  ghost predicate SamePids(m: Machine, m': Machine) {
    && |m'.pcbs| == |m.pcbs| && m'.nextPid == m.nextPid
    && forall i :: 0 <= i < |m.pcbs| && m'.pcbs[i].inUse ==> m.pcbs[i].inUse && m'.pcbs[i].pid == m.pcbs[i].pid
  }

  /** The process in slot `k` has taken the counter's value, and no other has changed. */
  ghost predicate OnePid(m: Machine, m': Machine, k: int) {
    && |m'.pcbs| == |m.pcbs| && 0 <= k < |m.pcbs| && m'.nextPid == Unsigned32(m.nextPid + 1)
    && m'.pcbs[k].inUse && m'.pcbs[k].pid == m.nextPid
    && forall i :: 0 <= i < |m.pcbs| && i != k ==> m'.pcbs[i].inUse == m.pcbs[i].inUse && m'.pcbs[i].pid == m.pcbs[i].pid
  }

  lemma StopNumbers(m: Machine, c: nat, code: int)
    requires Table(m.pcbs) && c < MAX_PROCESSES && m.pcbs[c].inUse
    requires m.pcbs[c].parent.Some? ==> m.pcbs[c].parent.value < MAX_PROCESSES && m.pcbs[m.pcbs[c].parent.value].inUse
    ensures if m.pcbs[c].parent.Some? then SamePids(m, Stop(m, c, code)) else OnePid(m, Stop(m, c, code), c)
  {
  }

  lemma StartNumbers(m: Machine, c: nat, saved: Context, start: nat)
    requires Table(m.pcbs) && c < MAX_PROCESSES && m.pcbs[c].inUse
    ensures var free := FreeSlot(m.pcbs, 0); var m' := Start(m, c, saved, start);
            if free.Some? && start != 0 then OnePid(m, m', free.value) else SamePids(m, m')
  {
  }

  /** What a step does to identifiers. */
  lemma StepNumbers(m: Machine, st: Stacks, e: Event)
    requires Inv(m, st) && Possible(m, e)
    ensures if Starts(m, e) then OnePid(m, Step(m, e), StartedSlot(m, e)) else SamePids(m, Step(m, e))
  {
    if !e.RtcTick? {
      ArrivesAtFocus(m, e.entry);
      ParentIsBelow(m.pcbs, st, Focus(m));
      if e.Halt? || e.Exception? {
        StopNumbers(m, Focus(m), if e.Halt? then e.code % 256 else 256);
      } else if e.Execute? {
        StartNumbers(m, Focus(m), e.entry.context, e.start);
      }
    }
  }

  /** A step keeps identifiers distinct if and only if it starts no process or the counter does not
      stand at the identifier of some other process in use. */
  lemma StepKeepsPidsIff(m: Machine, st: Stacks, e: Event)
    requires Inv(m, st) && Possible(m, e) && DistinctPids(m)
    ensures DistinctPids(Step(m, e)) <==>
            (Starts(m, e) ==> forall i :: 0 <= i < |m.pcbs| && i != StartedSlot(m, e) && m.pcbs[i].inUse ==> m.pcbs[i].pid != m.nextPid)
  {
    StepNumbers(m, st, e);
  }

  // ---------------------------------------------------------------------------
  // The first 2^32 processes
  // ---------------------------------------------------------------------------

  /** How many processes a run starts. */
  ghost function Started(m: Machine, events: seq<Event>): nat
    requires IsRun(m, events)
    decreases |events|
  {
    if events == [] then 0
    else (if Starts(m, events[0]) then 1 else 0) + Started(Step(m, events[0]), events[1..])
  }

  /** `n` processes have been started so far. */
  ghost predicate Numbered(m: Machine, n: nat) {
    && m.nextPid == Unsigned32(n)
    && (forall i :: 0 <= i < |m.pcbs| && m.pcbs[i].inUse ==> m.pcbs[i].pid < n)
    && DistinctPids(m)
  }

  lemma StepKeepsNumbered(m: Machine, st: Stacks, e: Event, n: nat)
    requires Inv(m, st) && Possible(m, e) && Numbered(m, n)
    requires Starts(m, e) ==> n < TWO_32
    ensures Numbered(Step(m, e), if Starts(m, e) then n + 1 else n)
  {
    StepNumbers(m, st, e);
  }

  lemma {:induction false} PidsStayDistinct(m: Machine, st: Stacks, events: seq<Event>, n: nat)
    requires Inv(m, st) && IsRun(m, events) && Numbered(m, n) && n + Started(m, events) <= TWO_32
    ensures DistinctPids(Run(m, events))
    decreases |events|
  {
    if events != [] {
      var e := events[0];
      StepKeepsInv(m, st, e);
      StepKeepsNumbered(m, st, e, n);
      PidsStayDistinct(Step(m, e), NextStacks(m, st, e), events[1..], if Starts(m, e) then n + 1 else n);
    }
  }

  /** From boot on, identifiers are distinct as long as no more than 2^32 processes have been started. */
  lemma ReachablePidsAreDistinct(start: nat, events: seq<Event>)
    requires IsRun(Boot(start), events) && NUM_TERMINALS + Started(Boot(start), events) <= TWO_32
    ensures DistinctPids(Run(Boot(start), events))
  {
    BootHolds(start);
    PidsStayDistinct(Boot(start), [[0], [1], [2]], events, NUM_TERMINALS);
  }

  // ---------------------------------------------------------------------------
  // And then they repeat
  // ---------------------------------------------------------------------------

  /** The end of a child brings its parent back and changes no third process. */
  lemma HaltReturns(m: Machine, st: Stacks, c: nat)
    requires Inv(m, st) && m.pcbs[Focus(m)].parent == Some(c)
    ensures var h := Halt(FromUser(Focus(m)), 0);
            && Possible(m, h) && c < MAX_PROCESSES && c != Focus(m)
            && var m' := Step(m, h);
            && Focus(m') == c && m'.nextPid == m.nextPid && |m'.pcbs| == MAX_PROCESSES && !m'.pcbs[Focus(m)].inUse
            && (forall i: nat :: i < MAX_PROCESSES && i != c && i != Focus(m) ==> m'.pcbs[i] == m.pcbs[i])
            && Inv(m', Popped(st, m.pcbs[Focus(m)].terminal))
  {
    FromUserArrives(m, Focus(m));
    EntryIsPossible(m, st, Halt(FromUser(Focus(m)), 0));
    ParentIsBelow(m.pcbs, st, Focus(m));
    ReturnKeepsInv(m, st, 0);
    HaltedIsClean(m.pcbs[Focus(m)]);
    FocusIs(Step(m, Halt(FromUser(Focus(m)), 0)), c);
  }

  lemma FreeSlotExists(pcbs: seq<Pcb>, i: nat, k: nat)
    requires i <= k < |pcbs| && !pcbs[k].inUse
    ensures FreeSlot(pcbs, i).Some?
  {
  }

  /** Starting a program and letting it end uses up one identifier and brings back the same shell. */
  lemma ExecuteAndHalt(m: Machine, st: Stacks, start: nat, slot: nat) returns (m': Machine, st': Stacks, events: seq<Event>)
    requires Inv(m, st) && start != 0 && FreeSlot(m.pcbs, 0) == Some(slot) && slot > 1 && Focus(m) == 0
    ensures |events| == 2 && IsRun(m, events) && Run(m, events) == m' && Inv(m', st')
    ensures Focus(m') == 0 && m'.nextPid == Unsigned32(m.nextPid + 1)
    ensures m'.pcbs[1] == m.pcbs[1] && m'.pcbs[0].inUse && FreeSlot(m'.pcbs, 0).Some?
  {
    var e, h := Execute(FromUser(0), start), Halt(FromUser(slot), 0);
    SpawnFrom(m, st, start, slot);
    FromUserArrives(m, 0);
    var m1 := Step(m, e);
    st' := Pushed(st, m.pcbs[0].terminal, slot);
    RunnableIsTop(m1.pcbs, st', slot);
    HaltReturns(m1, st', 0);
    m' := Step(m1, h);
    st' := Popped(st', m1.pcbs[slot].terminal);
    FreeSlotExists(m'.pcbs, 0, slot);
    PrependRun(m1, h, []);
    PrependRun(m, e, [h]);
    events := [e] + [h];
  }

  /** With the counter at the identifier of the shell in slot 1, the next program shares it. */
  lemma NextRepeats(m: Machine, st: Stacks, start: nat, slot: nat)
    requires Inv(m, st) && start != 0 && FreeSlot(m.pcbs, 0) == Some(slot) && slot > 1 && Focus(m) == 0
    requires m.pcbs[1].inUse && m.pcbs[1].pid == m.nextPid
    ensures var e := Execute(FromUser(0), start); IsRun(m, [e]) && !DistinctPids(Run(m, [e]))
  {
    var e := Execute(FromUser(0), start);
    SpawnFrom(m, st, start, slot);
    StepNumbers(m, st, e);
    assert Step(m, e).pcbs[1].pid == Step(m, e).pcbs[slot].pid;
    PrependRun(m, e, []);
  }

  lemma CounterAdvances(n: nat, k: nat)
    requires n < TWO_32 && k > 0
    ensures Unsigned32(Unsigned32(n + 1) + (k - 1)) == Unsigned32(n + k)
  {
  }

  /** From slot 0, a shell starts and ends programs until the counter stands at 1 again, and then
      starts one more: that one shares its identifier with the shell in slot 1. */
  lemma {:induction false} CountRound(m: Machine, st: Stacks, start: nat, k: nat) returns (events: seq<Event>)
    requires Inv(m, st) && start != 0 && FreeSlot(m.pcbs, 0).Some? && Focus(m) == 0
    requires m.pcbs[1].inUse && m.pcbs[1].pid == 1 && Unsigned32(m.nextPid + k) == 1 && m.nextPid < TWO_32
    ensures IsRun(m, events) && !DistinctPids(Run(m, events))
    decreases k
  {
    var slot := FreeSlot(m.pcbs, 0).value;
    if k == 0 {
      NextRepeats(m, st, start, slot);
      return [Execute(FromUser(0), start)];
    }
    var m', st', first := ExecuteAndHalt(m, st, start, slot);
    CounterAdvances(m.nextPid, k);
    var rest := CountRound(m', st', start, k - 1);
    RunThenRun(m, first, rest);
    events := first + rest;
  }

  /** Identifiers do repeat: some run from boot ends with two processes in use that share one. */
  lemma PidsRepeat(start: nat) returns (events: seq<Event>)
    requires start != 0
    ensures IsRun(Boot(start), events) && !DistinctPids(Run(Boot(start), events))
  {
    var m := Boot(start);
    BootHolds(start);
    FocusIs(m, 0);
    FreeSlotSkips(m.pcbs, 3);
    events := CountRound(m, [[0], [1], [2]], start, TWO_32 - 2);
  }
}
