/** What each system call and interrupt does, stated of the step itself: results, descriptors, clocks
    and entry points. */
module Calls {
  import opened Common
  import opened Process
  import opened Chains
  import opened RtcTiming

  /** The focused process before a call and after it. */
  ghost predicate Called(m: Machine, st: Stacks, e: Event) {
    Inv(m, st) && Possible(m, e) && !e.RtcTick?
  }

  ghost predicate OthersUnchanged(m: Machine, m': Machine) {
    |m'.pcbs| == |m.pcbs| && forall i :: 0 <= i < |m.pcbs| && i != Focus(m) ==> m'.pcbs[i] == m.pcbs[i]
  }

  // ---------------------------------------------------------------------------
  // Open and close
  // ---------------------------------------------------------------------------

  /** Open fails if and only if no descriptor is free, nothing was found or its type is above 2; then
      no PCB changes. */
  lemma OpenFailsIff(m: Machine, st: Stacks, e: Event)
    requires Called(m, st, e) && e.Open?
    ensures Step(m, e).eax == -1 <==>
            (forall fd :: 0 <= fd < MAX_FILE_DESCRIPTORS ==> m.pcbs[Focus(m)].files[fd].inUse) || e.found.None? || e.found.value.0 > 2
    ensures Step(m, e).eax == -1 ==> Step(m, e).pcbs == m.pcbs
  {
    ArrivesAtFocus(m, e.entry);
  }

  /** What a successful open leaves: the lowest free descriptor is in use with the operations of the
      entry's type, its inode and position 0, and nothing else changes, but that an RTC also sets the
      clock to 2 Hz, 512 interrupts. */
  lemma OpenGives(m: Machine, st: Stacks, e: Event)
    requires Called(m, st, e) && e.Open? && Step(m, e).eax != -1
    ensures OthersUnchanged(m, Step(m, e)) && 2 <= Step(m, e).eax < MAX_FILE_DESCRIPTORS && e.found.Some?
    ensures var p, q, fd := m.pcbs[Focus(m)], Step(m, e).pcbs[Focus(m)], Step(m, e).eax;
            var (fileType, inode) := e.found.value;
            && !p.files[fd].inUse && (forall i :: 0 <= i < fd ==> p.files[i].inUse)
            && (fileType == 0 ==> q.files[fd] == Descriptor(Rtc, true, inode, 0))
            && (fileType == 1 ==> q.files[fd] == Descriptor(Directory, true, inode, 0))
            && (fileType == 2 ==> q.files[fd] == Descriptor(Regular, true, inode, 0))
            && (forall i :: 0 <= i < MAX_FILE_DESCRIPTORS && i != fd ==> q.files[i] == p.files[i])
            && (fileType == 0 ==> q == p.(files := q.files, rtcEnabled := true, rtcInterval := 512, remainingTicks := 512))
            && (fileType != 0 ==> q == p.(files := q.files))
  {
    ArrivesAtFocus(m, e.entry);
    OpenKeepsFiles(m.pcbs[Focus(m)], e.found);
  }

  /** Close succeeds if and only if the descriptor is from 2 to 7 and in use.  It frees that one
      descriptor; closing an RTC also turns the process's RTC off, even if another is still open.  A
      failing close changes no PCB. */
  lemma CloseGives(m: Machine, st: Stacks, e: Event)
    requires Called(m, st, e) && e.Close?
    ensures OthersUnchanged(m, Step(m, e))
    ensures var p, q := m.pcbs[Focus(m)], Step(m, e).pcbs[Focus(m)];
            var open := 2 <= e.fd < MAX_FILE_DESCRIPTORS && p.files[e.fd].inUse;
            && Step(m, e).eax == (if open then 0 else -1)
            && (!open ==> q == p)
            && (open ==>
                  && !q.files[e.fd].inUse
                  && (forall i :: 0 <= i < MAX_FILE_DESCRIPTORS && i != e.fd ==> q.files[i] == p.files[i])
                  && q == p.(files := q.files, rtcEnabled := p.rtcEnabled && p.files[e.fd].kind != Rtc))
  {
    ArrivesAtFocus(m, e.entry);
  }

  /** A descriptor opened and closed again leaves every descriptor as it was, but for what the free
      one holds; unless an RTC was opened, nothing else is left of it either. */
  lemma OpenThenClose(m: Machine, st: Stacks, open: Event, close: Event)
    requires Called(m, st, open) && open.Open? && Step(m, open).eax != -1
    requires Called(Step(m, open), st, close) && close.Close? && close.fd == Step(m, open).eax
    ensures var p, q, fd := m.pcbs[Focus(m)], Step(Step(m, open), close).pcbs[Focus(m)], close.fd;
            && Step(Step(m, open), close).eax == 0
            && !q.files[fd].inUse && (forall i :: 0 <= i < MAX_FILE_DESCRIPTORS && i != fd ==> q.files[i] == p.files[i])
            && (open.found.value.0 != 0 ==> q == p.(files := q.files))
  {
    OpenGives(m, st, open);
    ArrivesAtFocus(m, open.entry);
    FocusIs(Step(m, open), Focus(m));
    CloseGives(Step(m, open), st, close);
  }

  // ---------------------------------------------------------------------------
  // The RTC
  // ---------------------------------------------------------------------------

  predicate IsRate(hertz: bv32) {
    hertz in {2, 4, 8, 16, 32, 64, 128, 256, 512, 1024}
  }

  /** A write to an open RTC of one of the ten rates returns 0 and stores the interval that makes up
      1024 interrupts at that rate, keeping the countdown; any other returns -1 and changes no PCB. */
  lemma RateIsStored(m: Machine, st: Stacks, e: Event)
    requires Called(m, st, e) && e.RtcWrite?
    ensures OthersUnchanged(m, Step(m, e))
    ensures var p, q := m.pcbs[Focus(m)], Step(m, e).pcbs[Focus(m)];
            if IsOpenRtc(p, e.fd) && IsRate(e.hertz)
            then Step(m, e).eax == 0 && q.rtcInterval * (e.hertz as int) == 1024 && q == p.(rtcInterval := q.rtcInterval)
            else Step(m, e).eax == -1 && q == p
  {
    ArrivesAtFocus(m, e.entry);
    AcceptsPowersOfTwo(e.hertz);
  }

  /** A read of an open RTC that is on returns 0 at the end of the countdown and starts it again; until
      then it changes nothing, not even eax.  Any other read returns -1 and changes no PCB. */
  lemma ReadWaitsForCountdown(m: Machine, st: Stacks, e: Event)
    requires Called(m, st, e) && e.RtcRead?
    ensures OthersUnchanged(m, Step(m, e))
    ensures var p, q := m.pcbs[Focus(m)], Step(m, e).pcbs[Focus(m)];
            if !IsOpenRtc(p, e.fd) || !p.rtcEnabled then Step(m, e).eax == -1 && q == p
            else if p.remainingTicks > 0 then Step(m, e).eax == m.eax && q == p
            else Step(m, e).eax == 0 && q == p.(remainingTicks := p.rtcInterval)
  {
    ArrivesAtFocus(m, e.entry);
  }

  /** An RTC interrupt takes one off every running countdown of a process in use, and nothing else. */
  lemma InterruptCountsDown(m: Machine, i: nat)
    requires Possible(m, RtcTick) && i < MAX_PROCESSES
    ensures var p, q := m.pcbs[i], Step(m, RtcTick).pcbs[i];
            && q == p.(remainingTicks := q.remainingTicks)
            && q.remainingTicks == p.remainingTicks - (if p.inUse && p.rtcEnabled && p.remainingTicks > 0 then 1 else 0)
    ensures Step(m, RtcTick) == m.(pcbs := Step(m, RtcTick).pcbs)
  {
  }

  // ---------------------------------------------------------------------------
  // Rates and reads
  // ---------------------------------------------------------------------------

  /** No clock ever holds more than 512, the interval of 2 Hz. */
  ghost predicate ClocksBounded(m: Machine) {
    forall i :: 0 <= i < |m.pcbs| ==> m.pcbs[i].rtcInterval <= 512 && m.pcbs[i].remainingTicks <= 512
  }

  lemma StepKeepsClocks(m: Machine, st: Stacks, e: Event)
    requires Inv(m, st) && Possible(m, e) && ClocksBounded(m)
    ensures ClocksBounded(Step(m, e))
  {
    StepKeepsInv(m, st, e);
    forall i | 0 <= i < MAX_PROCESSES
      ensures Step(m, e).pcbs[i].rtcInterval <= 512 && Step(m, e).pcbs[i].remainingTicks <= 512
    {
      if e.RtcTick? {
        InterruptCountsDown(m, i);
      } else if !OwnRtcCall(m, e, i) {
        OthersKeepClock(m, e, i);
      } else {
        OwnCallKeepsClock(m, st, e);
      }
    }
  }

  lemma OwnCallKeepsClock(m: Machine, st: Stacks, e: Event)
    requires Called(m, st, e) && ClocksBounded(m) && (e.Open? || e.RtcRead? || e.RtcWrite?)
    ensures Current(e.entry) == Focus(m)
    ensures Step(m, e).pcbs[Focus(m)].rtcInterval <= 512 && Step(m, e).pcbs[Focus(m)].remainingTicks <= 512
  {
    ArrivesAtFocus(m, e.entry);
    if e.Open? {
      OpenFailsIff(m, st, e);
      if Step(m, e).eax != -1 { OpenGives(m, st, e); }
    } else if e.RtcRead? {
      ReadWaitsForCountdown(m, st, e);
    } else {
      RateIsStored(m, st, e);
      if Step(m, e).eax == 0 {
        IntervalIsSmall(Step(m, e).pcbs[Focus(m)].rtcInterval, e.hertz as int);
      }
    }
  }

  lemma IntervalIsSmall(interval: nat, hertz: int)
    requires hertz >= 2 && interval * hertz == 1024
    ensures interval <= 512
  {
    assert interval * hertz == interval * 2 + interval * (hertz - 2);
  }

  lemma {:induction false} RunKeepsClocks(m: Machine, st: Stacks, events: seq<Event>)
    requires Inv(m, st) && IsRun(m, events) && ClocksBounded(m)
    ensures ClocksBounded(Run(m, events))
    decreases |events|
  {
    if events != [] {
      StepKeepsClocks(m, st, events[0]);
      StepKeepsInv(m, st, events[0]);
      RunKeepsClocks(Step(m, events[0]), NextStacks(m, st, events[0]), events[1..]);
    }
  }

  lemma ReachableClocksAreBounded(start: nat, events: seq<Event>)
    requires IsRun(Boot(start), events)
    ensures ClocksBounded(Run(Boot(start), events))
  {
    BootHolds(start);
    RunKeepsClocks(Boot(start), [[0], [1], [2]], events);
  }

  /** `returned` reads have cost a first countdown of `first` and an interval for each further one. */
  predicate Paid(first: nat, returned: nat, interval: nat, ticks: nat) {
    returned > 0 ==> first + (returned - 1) * interval <= ticks
  }

  /** From any countdown: all returns but the first are paid for with an interval each. */
  lemma {:induction false} ReturnsAfterFirst(m: Machine, st: Stacks, events: seq<Event>, p: nat, interval: nat)
    requires Inv(m, st) && IsRun(m, events) && p < MAX_PROCESSES && Steady(m, events, p, interval) && ClocksBounded(m)
    ensures Paid(m.pcbs[p].remainingTicks, ReturnCount(m, events, p), interval, Ticks(events))
    decreases |events|
  {
    if events != [] {
      var e := events[0];
      var m' := Step(m, e);
      var st' := InvGoesOn(m, st, e);
      SteadyGoesOn(m, events, p, interval);
      ReturnsAfterFirst(m', st', events[1..], p, interval);
      PaidWithStep(m, st, events, p, interval);
    }
  }

  lemma SteadyGoesOn(m: Machine, events: seq<Event>, p: nat, interval: nat)
    requires IsRun(m, events) && events != [] && Steady(m, events, p, interval)
    ensures IsRun(Step(m, events[0]), events[1..]) && Steady(Step(m, events[0]), events[1..], p, interval)
    ensures p < |m.pcbs| && p < |Step(m, events[0]).pcbs|
    ensures m.pcbs[p].rtcInterval == interval == Step(m, events[0]).pcbs[p].rtcInterval
  {
  }

  lemma PaidWithStep(m: Machine, st: Stacks, events: seq<Event>, p: nat, interval: nat)
    requires Inv(m, st) && IsRun(m, events) && events != [] && p < MAX_PROCESSES && ClocksBounded(m)
    requires p < |Step(m, events[0]).pcbs| && m.pcbs[p].rtcInterval == interval == Step(m, events[0]).pcbs[p].rtcInterval
    requires Paid(Step(m, events[0]).pcbs[p].remainingTicks, ReturnCount(Step(m, events[0]), events[1..], p), interval, Ticks(events[1..]))
    ensures Paid(m.pcbs[p].remainingTicks, ReturnCount(m, events, p), interval, Ticks(events))
  {
    var e := events[0];
    CountsUnfold(m, events, p);
    StepTowardsReturn(m, st, e, p, interval);
    Prepend(IsReturn(m, e, p), if e.RtcTick? then 1 else 0, m.pcbs[p].remainingTicks, Step(m, e).pcbs[p].remainingTicks,
            ReturnCount(Step(m, e), events[1..], p), Ticks(events[1..]), interval);
  }

  lemma CountsUnfold(m: Machine, events: seq<Event>, p: nat)
    requires IsRun(m, events) && events != []
    ensures ReturnCount(m, events, p) == (if IsReturn(m, events[0], p) then 1 else 0) + ReturnCount(Step(m, events[0]), events[1..], p)
    ensures Ticks(events) == (if events[0].RtcTick? then 1 else 0) + Ticks(events[1..])
  {
  }

  lemma InvGoesOn(m: Machine, st: Stacks, e: Event) returns (st': Stacks)
    requires Inv(m, st) && Possible(m, e) && ClocksBounded(m)
    ensures Inv(Step(m, e), st') && ClocksBounded(Step(m, e))
  {
    StepKeepsInv(m, st, e);
    StepKeepsClocks(m, st, e);
    st' := NextStacks(m, st, e);
  }

  lemma Prepend(done: bool, tick: nat, now: nat, next: nat, r: nat, ticks: nat, interval: nat)
    requires if done then now == 0 && next == interval else now <= next + tick
    requires Paid(next, r, interval, ticks)
    ensures Paid(now, (if done then 1 else 0) + r, interval, tick + ticks)
  {
    if done && r > 0 {
      assert interval + (r - 1) * interval == r * interval;
    }
  }

  lemma StepTowardsReturn(m: Machine, st: Stacks, e: Event, p: nat, interval: nat)
    requires Inv(m, st) && Possible(m, e) && p < MAX_PROCESSES && ClocksBounded(m) && p < |Step(m, e).pcbs|
    requires m.pcbs[p].rtcInterval == interval == Step(m, e).pcbs[p].rtcInterval
    ensures var now, next := m.pcbs[p].remainingTicks, Step(m, e).pcbs[p].remainingTicks;
            if IsReturn(m, e, p) then now == 0 && next == interval else now <= next + if e.RtcTick? then 1 else 0
  {
    if e.RtcTick? {
      InterruptCountsDown(m, p);
    } else if !OwnRtcCall(m, e, p) {
      OthersKeepClock(m, e, p);
    } else {
      ArrivesAtFocus(m, e.entry);
      if e.Open? {
        OpenFailsIff(m, st, e);
        if Step(m, e).eax != -1 { OpenGives(m, st, e); }
      } else if e.RtcRead? {
        ReadWaitsForCountdown(m, st, e);
      } else {
        RateIsStored(m, st, e);
      }
    }
  }

  /** A rate is a rate: from an accepted write of `hertz` on, while the rate stays, the returns of the
      process's reads after the first one take at least 1024 / hertz interrupts each. */
  lemma RateSpacesReads(m: Machine, st: Stacks, e: Event, events: seq<Event>)
    requires Called(m, st, e) && ClocksBounded(m) && e.RtcWrite? && Step(m, e).eax == 0
    requires IsRun(Step(m, e), events) && Steady(Step(m, e), events, Focus(m), Step(m, e).pcbs[Focus(m)].rtcInterval)
    ensures var k := ReturnCount(Step(m, e), events, Focus(m)) - 1;
            k * 1024 <= Ticks(events) * (e.hertz as int)
  {
    var m' := Step(m, e);
    var interval := m'.pcbs[Focus(m)].rtcInterval;
    RateIsStored(m, st, e);
    StepKeepsInv(m, st, e);
    StepKeepsClocks(m, st, e);
    ReturnsAfterFirst(m', NextStacks(m, st, e), events, Focus(m), interval);
    Scale(ReturnCount(m', events, Focus(m)) - 1, interval, e.hertz as int, Ticks(events));
  }

  lemma Scale(k: int, interval: nat, hertz: int, ticks: nat)
    requires interval * hertz == 1024 && hertz > 0 && (k > 0 ==> k * interval <= ticks)
    ensures k * 1024 <= ticks * hertz
  {
    if k > 0 {
      assert k * 1024 == (k * interval) * hertz;
      assert (k * interval) * hertz <= ticks * hertz;
    } else {
      assert k * 1024 <= 0 <= ticks * hertz;
    }
  }

  // ---------------------------------------------------------------------------
  // Starting programs
  // ---------------------------------------------------------------------------

  /** On its parent's terminal, with stdin and stdout at position 0; eax is left for its end to set. */
  lemma SpawnGives(m: Machine, st: Stacks, e: Event)
    requires Inv(m, st) && Possible(m, e) && Spawns(m, e)
    ensures var slot := FreeSlot(m.pcbs, 0).value;
            && |Step(m, e).pcbs| == MAX_PROCESSES
            && var child := Step(m, e).pcbs[slot];
            && child.entrypoint == e.start && child.terminal == m.pcbs[Focus(m)].terminal && child.parent == Some(Focus(m))
            && |child.files| == MAX_FILE_DESCRIPTORS && child.files[0].position == child.files[1].position == 0
            && Step(m, e).eax == m.eax
            && Step(m, e).context.esp == Step(m, e).esp0 == StackBase(slot)
  {
    ArrivesAtFocus(m, e.entry);
  }

  /** A root that halts, and a process a tick comes to for the first time, start like that too: with
      an empty kernel stack. */
  lemma StartsOnEmptyStack(m: Machine, st: Stacks, e: Event)
    requires Called(m, st, e)
    requires (e.Halt? && !Returns(m, e)) ||
             (e.TimerTick? && FirstRunnable(m.pcbs, Scan(Focus(m))).Some? && m.pcbs[FirstRunnable(m.pcbs, Scan(Focus(m))).value].regs.esp == 0)
    ensures var slot := if e.Halt? then Focus(m) else FirstRunnable(m.pcbs, Scan(Focus(m))).value;
            Step(m, e).context.esp == Step(m, e).esp0 == StackBase(slot) && Focus(Step(m, e)) == slot
  {
    ArrivesAtFocus(m, e.entry);
    ScanSkipsCurrent(Focus(m));
    if e.Halt? {
      HaltedIsClean(m.pcbs[Focus(m)]);
      FocusIs(Step(m, e), Focus(m));
    } else {
      FocusIs(Step(m, e), FirstRunnable(m.pcbs, Scan(Focus(m))).value);
    }
  }

  /** A successful execute starts the child at the entry point found; no other step changes where a
      slot's process starts, so a root that halts starts where it started before. */
  lemma EntryPointsStay(m: Machine, st: Stacks, e: Event, i: nat)
    requires Inv(m, st) && Possible(m, e) && i < MAX_PROCESSES
    ensures |Step(m, e).pcbs| == MAX_PROCESSES
    ensures Step(m, e).pcbs[i].entrypoint ==
            if Spawns(m, e) && i == FreeSlot(m.pcbs, 0).value then e.start else m.pcbs[i].entrypoint
  {
    if !e.RtcTick? {
      ArrivesAtFocus(m, e.entry);
      if e.Halt? || e.Exception? {
        EndKeepsEntryPoint(m, Focus(m), if e.Halt? then e.code % 256 else 256, i);
      }
    }
  }

  lemma EndKeepsEntryPoint(m: Machine, c: nat, code: int, i: nat)
    requires Table(m.pcbs) && c < MAX_PROCESSES && i < MAX_PROCESSES
    requires m.pcbs[c].parent.Some? ==> m.pcbs[c].parent.value < MAX_PROCESSES
    ensures |Stop(m, c, code).pcbs| == MAX_PROCESSES && Stop(m, c, code).pcbs[i].entrypoint == m.pcbs[i].entrypoint
  {
  }

  /** Every call that does not start or end a process returns to where it was made: registers, page
      directory, TSS and the identifier counter stay. */
  lemma CallReturnsToCaller(m: Machine, st: Stacks, e: Event)
    requires Called(m, st, e) && !Spawns(m, e) && !e.Halt? && !e.Exception? && !e.TimerTick?
    ensures var m' := Step(m, e);
            m'.context == e.entry.context && m'.directory == m.directory && m'.esp0 == m.esp0 && m'.nextPid == m.nextPid
  {
  }

  /** The status a child's end leaves in eax: the low byte of its own status, or 256 for an exception. */
  lemma StatusGiven(m: Machine, st: Stacks, e: Event)
    requires Called(m, st, e) && Returns(m, e)
    ensures e.Exception? ==> Step(m, e).eax == 256
    ensures e.Halt? ==> 0 <= Step(m, e).eax < 256 && (e.code - Step(m, e).eax) % 256 == 0
  {
    if e.Halt? {
      LowByteIsCongruent(e.code);
    }
  }

  lemma LowByteIsCongruent(code: nat)
    ensures (code - code % 256) % 256 == 0
  {
  }

  /** The end of a child: its slot is free and holds no process, its parent runs again with the
      registers it saved, and no third process changes. */
  lemma EndGives(m: Machine, st: Stacks, e: Event)
    requires Called(m, st, e) && Returns(m, e)
    ensures m.pcbs[Focus(m)].parent.Some? && m.pcbs[Focus(m)].parent.value < MAX_PROCESSES
    ensures var c, parent, m' := Focus(m), m.pcbs[Focus(m)].parent.value, Step(m, e);
            && |m'.pcbs| == MAX_PROCESSES
            && !m'.pcbs[c].inUse && m'.pcbs[c].status == NoProcess && CleanFiles(m'.pcbs[c])
            && m'.pcbs[parent] == m.pcbs[parent].(status := Running)
            && m'.context == m.pcbs[parent].regs && m'.nextPid == m.nextPid
            && (forall i :: 0 <= i < MAX_PROCESSES && i != c && i != parent ==> m'.pcbs[i] == m.pcbs[i])
  {
    ArrivesAtFocus(m, e.entry);
    ParentIsBelow(m.pcbs, st, Focus(m));
    var code := if e.Halt? then e.code % 256 else 256;
    ReturnGives(m, Focus(m), m.pcbs[Focus(m)].parent.value, code);
    assert Step(m, e) == ReturnToParent(m, Focus(m), m.pcbs[Focus(m)].parent.value, code);
  }

  lemma ReturnGives(m: Machine, c: nat, parent: nat, code: int)
    requires Table(m.pcbs) && c < MAX_PROCESSES && parent < MAX_PROCESSES && c != parent && StandardFiles(m.pcbs[c])
    ensures var m' := ReturnToParent(m, c, parent, code);
            && |m'.pcbs| == MAX_PROCESSES
            && !m'.pcbs[c].inUse && m'.pcbs[c].status == NoProcess && CleanFiles(m'.pcbs[c])
            && m'.pcbs[parent] == m.pcbs[parent].(status := Running)
            && m'.context == m.pcbs[parent].regs && m'.nextPid == m.nextPid && m'.eax == code
            && (forall i :: 0 <= i < MAX_PROCESSES && i != c && i != parent ==> m'.pcbs[i] == m.pcbs[i])
  {
    HaltedIsClean(m.pcbs[c]);
  }

  // ---------------------------------------------------------------------------
  // Addresses
  // ---------------------------------------------------------------------------

  /** Kernel stacks lie in the kernel's 4 MB page, 8 KB each, one below the other; page directories lie
      from 124 MB on, 16 KB apart.  So a stack pointer and a directory each name one slot. */
  lemma AddressesNameSlots(s: nat, t: nat)
    requires s < MAX_PROCESSES && t < MAX_PROCESSES
    ensures 0x40_0000 <= PcbAddress(s) && StackBase(s) == PcbAddress(s) + 0x2000 <= 0x80_0000
    ensures s < t ==> StackBase(t) <= PcbAddress(s)
    ensures 124 * 0x10_0000 <= DirectoryAddress(s) && DirectoryAddress(s) + 0x4000 <= 128 * 0x10_0000
    ensures DirectoryAddress(s) == DirectoryAddress(t) <==> s == t
    ensures s < t ==> DirectoryAddress(s) + 0x4000 <= DirectoryAddress(t)
  {
  }
}
