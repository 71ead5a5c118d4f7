/** Timing of the virtualised RTC: each process counts down its own interval of RTC interrupts. */
module RtcTiming {
  import opened Common
  import opened Process
  import opened Chains

  /** `rtc_write` accepts exactly the powers of two from 2 to 1024 Hz, and the interval it sets
      divides the 1024 Hz interrupt rate exactly. */
  lemma AcceptsPowersOfTwo(hertz: bv32)
    ensures AcceptsRate(hertz) <==> hertz in {2, 4, 8, 16, 32, 64, 128, 256, 512, 1024}
    ensures AcceptsRate(hertz) ==> MAX_FREQ / (hertz as int) * (hertz as int) == MAX_FREQ
  {
    PowersOfTwo(hertz);
    if AcceptsRate(hertz) {
      assert hertz as int in {2, 4, 8, 16, 32, 64, 128, 256, 512, 1024};
    }
  }

  lemma PowersOfTwo(hertz: bv32)
    ensures AcceptsRate(hertz) <==> hertz in {2, 4, 8, 16, 32, 64, 128, 256, 512, 1024}
  {
    assert AcceptsRate(hertz) <==> 2 <= hertz <= 1024 && hertz & (hertz - 1) == 0;
  }

  // ---------------------------------------------------------------------------
  // Who changes a countdown
  // ---------------------------------------------------------------------------

  predicate SameClock(p: Pcb, q: Pcb) {
    q.rtcInterval == p.rtcInterval && q.remainingTicks == p.remainingTicks
  }

  lemma {:induction false} ClosingKeepsClock(p: Pcb, fd: nat)
    requires |p.files| == MAX_FILE_DESCRIPTORS && fd <= MAX_FILE_DESCRIPTORS
    ensures SameClock(p, CloseFrom(p, fd))
    decreases MAX_FILE_DESCRIPTORS - fd
  {
    if fd < MAX_FILE_DESCRIPTORS {
      ClosingKeepsClock(CloseFile(p, fd).0, fd + 1);
    }
  }

  /** The process's own RTC calls, which alone may set its countdown. */
  predicate OwnRtcCall(m: Machine, e: Event, p: nat) {
    (e.Open? || e.RtcRead? || e.RtcWrite?) && Current(e.entry) == p
  }

  /** Only an RTC interrupt or the process's own RTC calls move its countdown or its interval;
      nothing another process does reaches them. */
  lemma OthersKeepClock(m: Machine, e: Event, p: nat)
    requires Possible(m, e) && p < MAX_PROCESSES
    requires !e.RtcTick? && !OwnRtcCall(m, e, p)
    ensures p < |Step(m, e).pcbs| && SameClock(m.pcbs[p], Step(m, e).pcbs[p])
  {
    if e.Halt? || e.Exception? {
      ClosingKeepsClock(m.pcbs[Current(e.entry)].(inUse := false), 0);
    }
  }

  // ---------------------------------------------------------------------------
  // Counting along a run
  // ---------------------------------------------------------------------------

  function Ticks(events: seq<Event>): nat {
    if events == [] then 0 else (if events[0].RtcTick? then 1 else 0) + Ticks(events[1..])
  }

  /** The step is a read of process `p` that returns. */
  predicate IsReturn(m: Machine, e: Event, p: nat)
    requires Possible(m, e)
  {
    e.RtcRead? && Current(e.entry) == p && RtcReturns(m.pcbs[p], e.fd)
  }

  ghost function ReturnCount(m: Machine, events: seq<Event>, p: nat): nat
    requires IsRun(m, events)
    decreases |events|
  {
    if events == [] then 0
    else (if IsReturn(m, events[0], p) then 1 else 0) + ReturnCount(Step(m, events[0]), events[1..], p)
  }

  /** The interval of slot `p` is `interval` in every state of the run. */
  ghost predicate Steady(m: Machine, events: seq<Event>, p: nat, interval: nat)
    requires IsRun(m, events)
    decreases |events|
  {
    && p < |m.pcbs| && m.pcbs[p].rtcInterval == interval
    && (events != [] ==> Steady(Step(m, events[0]), events[1..], p, interval))
  }

  /** One step can use up no more of the countdown than the interrupts it contains. */
  lemma StepPaysForReturn(m: Machine, e: Event, p: nat, interval: nat)
    requires Possible(m, e) && p < MAX_PROCESSES
    requires p < |Step(m, e).pcbs|
    requires m.pcbs[p].rtcInterval == interval == Step(m, e).pcbs[p].rtcInterval
    requires m.pcbs[p].remainingTicks <= interval
    ensures var now := m.pcbs[p].remainingTicks; var later := Step(m, e).pcbs[p].remainingTicks;
            && later <= interval
            && now + (if IsReturn(m, e, p) then interval else 0) <= later + (if e.RtcTick? then 1 else 0)
  {
    if !e.RtcTick? && !OwnRtcCall(m, e, p) {
      OthersKeepClock(m, e, p);
    }
  }

  lemma {:induction false} ReturnsArePaidFor(m: Machine, events: seq<Event>, p: nat, interval: nat)
    requires IsRun(m, events) && p < MAX_PROCESSES && Steady(m, events, p, interval)
    requires m.pcbs[p].remainingTicks <= interval
    ensures m.pcbs[p].remainingTicks + ReturnCount(m, events, p) * interval <= Ticks(events) + interval
    decreases |events|
  {
    if events != [] {
      var m' := Step(m, events[0]);
      StepPaysForReturn(m, events[0], p, interval);
      ReturnsArePaidFor(m', events[1..], p, interval);
      var ret := if IsReturn(m, events[0], p) then 1 else 0;
      var tick := if events[0].RtcTick? then 1 else 0;
      Accumulate(m.pcbs[p].remainingTicks, m'.pcbs[p].remainingTicks, ret, tick,
                 ReturnCount(m', events[1..], p), Ticks(events[1..]), interval);
    }
  }

  lemma Accumulate(now: nat, next: nat, ret: nat, tick: nat, r: nat, t: nat, interval: nat)
    requires ret <= 1 && now + ret * interval <= next + tick
    requires next + r * interval <= t + interval
    ensures now + (ret + r) * interval <= (tick + t) + interval
  {
    assert (ret + r) * interval == ret * interval + r * interval;
  }

  /** Right after a read has returned, and under every interleaving of processes: `k` more
      returns at an unchanged rate take at least `k` intervals of RTC interrupts. */
  lemma ReadsAreSpaced(m: Machine, events: seq<Event>, p: nat, interval: nat)
    requires IsRun(m, events) && p < MAX_PROCESSES && Steady(m, events, p, interval)
    requires m.pcbs[p].remainingTicks == interval
    ensures ReturnCount(m, events, p) * interval <= Ticks(events)
  {
    ReturnsArePaidFor(m, events, p, interval);
  }

  /** While slot `p` holds the same enabled process and it makes no RTC call. */
  ghost predicate Undisturbed(m: Machine, events: seq<Event>, p: nat)
    requires IsRun(m, events)
    decreases |events|
  {
    && p < |m.pcbs| && m.pcbs[p].inUse && m.pcbs[p].rtcEnabled
    && (events != [] ==> !OwnRtcCall(m, events[0], p) && Undisturbed(Step(m, events[0]), events[1..], p))
  }

  /** And no longer than that: left alone, the countdown loses exactly one per interrupt, so
      after an interval of interrupts the next read returns at once. */
  lemma {:induction false} CountdownIsExact(m: Machine, events: seq<Event>, p: nat)
    requires IsRun(m, events) && p < MAX_PROCESSES && Undisturbed(m, events, p)
    ensures p < |Run(m, events).pcbs|
    ensures var r := m.pcbs[p].remainingTicks;
            Run(m, events).pcbs[p].remainingTicks == if Ticks(events) >= r then 0 else r - Ticks(events)
    decreases |events|
  {
    if events != [] {
      if !events[0].RtcTick? {
        OthersKeepClock(m, events[0], p);
      }
      CountdownIsExact(Step(m, events[0]), events[1..], p);
    }
  }
}
