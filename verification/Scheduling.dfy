/** Round-robin scheduling: where a timer tick goes, and when three ticks serve all terminals. */
module Scheduling {
  import opened Common
  import opened Process
  import opened Chains

  /** Steps forward from one slot to another around the table of six. */
  function Distance(from: int, to: int): nat {
    (to - from) % MAX_PROCESSES
  }

  /** The running process that comes first after slot `c` going around the table. */
  ghost predicate IsNextLeaf(pcbs: seq<Pcb>, c: int, n: int) {
    && 0 <= n != c && Runnable(pcbs, n)
    && forall l: nat :: l != c && Runnable(pcbs, l) ==> Distance(c, n) <= Distance(c, l)
  }

  /** The three running processes, in slot order. */
  ghost predicate Leaves(pcbs: seq<Pcb>, x: nat, y: nat, z: nat) {
    && x < y < z < MAX_PROCESSES == |pcbs|
    && forall i: nat :: Runnable(pcbs, i) <==> i == x || i == y || i == z
  }

  lemma ThreeLeaves(pcbs: seq<Pcb>, st: Stacks) returns (x: nat, y: nat, z: nat)
    requires Chained(pcbs, st) && Table(pcbs)
    ensures Leaves(pcbs, x, y, z)
  {
    var a, b, c := Top(st[0]), Top(st[1]), Top(st[2]);
    TopIsRunnable(pcbs, st, 0);
    TopIsRunnable(pcbs, st, 1);
    TopIsRunnable(pcbs, st, 2);
    x, y, z := Sort3(a, b, c);
    forall i: nat
      ensures Runnable(pcbs, i) <==> i == x || i == y || i == z
    {
      if Runnable(pcbs, i) { RunnableIsTop(pcbs, st, i); }
      assert i in {x, y, z} <==> i in {a, b, c};
    }
  }

  lemma Sort3(a: nat, b: nat, c: nat) returns (x: nat, y: nat, z: nat)
    requires a != b && b != c && a != c
    ensures x < y < z && {x, y, z} == {a, b, c}
  {
    if a < b && a < c { x := a; if b < c { y, z := b, c; } else { y, z := c, b; } }
    else if b < a && b < c { x := b; if a < c { y, z := a, c; } else { y, z := c, a; } }
    else { x := c; if a < b { y, z := a, b; } else { y, z := b, a; } }
  }

  lemma FirstOfFour(pcbs: seq<Pcb>, a: nat, b: nat, c: nat, d: nat)
    ensures FirstRunnable(pcbs, [a, b, c, d]) ==
            if Runnable(pcbs, a) then Some(a) else if Runnable(pcbs, b) then Some(b)
            else if Runnable(pcbs, c) then Some(c) else if Runnable(pcbs, d) then Some(d) else None
  {
    assert [a, b, c, d][1..] == [b, c, d];
    assert [b, c, d][1..] == [c, d];
    assert [c, d][1..] == [d];
    var ofD := if Runnable(pcbs, d) then Some(d) else None;
    assert FirstRunnable(pcbs, [d]) == ofD;
    var ofC := if Runnable(pcbs, c) then Some(c) else ofD;
    assert FirstRunnable(pcbs, [c, d]) == ofC;
    var ofB := if Runnable(pcbs, b) then Some(b) else ofC;
    assert FirstRunnable(pcbs, [b, c, d]) == ofB;
  }

  /** The leaf after `c` in slot order, wrapping round. */
  function After(x: nat, y: nat, z: nat, c: int): nat {
    if c == x then y else if c == y then z else x
  }

  /** Where the scan ends, leaf by leaf: at the next leaf, except from slot 5 when slot 0 is a leaf. */
  lemma ScanFindsNext(pcbs: seq<Pcb>, x: nat, y: nat, z: nat, c: nat)
    requires Leaves(pcbs, x, y, z) && c in [x, y, z]
    ensures !(x == 0 && c == 5) ==> FirstRunnable(pcbs, Scan(c)) == Some(After(x, y, z, c))
    ensures x == 0 && c == 5 ==> FirstRunnable(pcbs, Scan(c)) == if y <= 3 then Some(y) else None
  {
    var s := Scan(c);
    FirstOfFour(pcbs, s[0], s[1], s[2], s[3]);
    assert s == [s[0], s[1], s[2], s[3]];
  }

  lemma AfterIsNextLeaf(pcbs: seq<Pcb>, x: nat, y: nat, z: nat, c: nat, n: int)
    requires Leaves(pcbs, x, y, z) && c in [x, y, z]
    ensures IsNextLeaf(pcbs, c, n) <==> n == After(x, y, z, c)
  {
    var a := After(x, y, z, c);
    assert Runnable(pcbs, a);
    if IsNextLeaf(pcbs, c, n) {
      assert Distance(c, n) <= Distance(c, a);
    }
  }

  lemma TickGoesTo(m: Machine, st: Stacks, entry: Entry, x: nat, y: nat, z: nat)
    requires Inv(m, st) && Possible(m, TimerTick(entry)) && Leaves(m.pcbs, x, y, z)
    ensures Focus(m) in [x, y, z]
    ensures var m' := Step(m, TimerTick(entry));
            && (!(x == 0 && Focus(m) == 5) ==> Focus(m') == After(x, y, z, Focus(m)))
            && (x == 0 && Focus(m) == 5 ==> Focus(m') == if y <= 3 then y else 5)
            && Leaves(m'.pcbs, x, y, z)
  {
    var c := Focus(m);
    ArrivesAtFocus(m, entry);
    ScanFindsNext(m.pcbs, x, y, z, c);
    var m' := Step(m, TimerTick(entry));
    match FirstRunnable(m.pcbs, Scan(c))
    case None => FocusIs(m', c);
    case Some(n) =>
      FocusIs(m', n);
      assert forall i: nat :: i < |m.pcbs| ==> Runnable(m'.pcbs, i) == Runnable(m.pcbs, i);
  }

  /** In every reachable state a timer tick moves to the next leaf, if and only if it is not
      slot 5 that is running while slot 0 is a leaf: the one slot a scan leaves out is never
      the next leaf, but from slot 5 the scan jumps over slot 0. */
  lemma TickMovesToNextLeafIff(m: Machine, st: Stacks, entry: Entry)
    requires Inv(m, st) && Possible(m, TimerTick(entry))
    ensures IsNextLeaf(m.pcbs, Focus(m), Focus(Step(m, TimerTick(entry)))) <==>
            !(Focus(m) == 5 && Runnable(m.pcbs, 0))
  {
    var x, y, z := ThreeLeaves(m.pcbs, st);
    TickGoesTo(m, st, entry, x, y, z);
    var n := Focus(Step(m, TimerTick(entry)));
    AfterIsNextLeaf(m.pcbs, x, y, z, Focus(m), n);
    assert Runnable(m.pcbs, 0) <==> x == 0;
  }

  // ---------------------------------------------------------------------------
  // Runs in which no process starts or ends
  // ---------------------------------------------------------------------------

  ghost predicate Quiet(m: Machine, events: seq<Event>)
    requires IsRun(m, events)
    decreases |events|
  {
    events == [] ||
    (!Spawns(m, events[0]) && !events[0].Halt? && !events[0].Exception? && Quiet(Step(m, events[0]), events[1..]))
  }

  /** The slot running after each timer tick of a run. */
  ghost function Foci(m: Machine, events: seq<Event>): seq<int>
    requires IsRun(m, events)
    decreases |events|
  {
    if events == [] then []
    else
      var m' := Step(m, events[0]);
      (if events[0].TimerTick? then [Focus(m')] else []) + Foci(m', events[1..])
  }

  lemma CallKeepsLeaves(m: Machine, st: Stacks, e: Event, x: nat, y: nat, z: nat)
    requires Inv(m, st) && Possible(m, e) && Leaves(m.pcbs, x, y, z)
    requires !Spawns(m, e) && !e.Halt? && !e.Exception? && !e.TimerTick?
    ensures Focus(Step(m, e)) == Focus(m) && Leaves(Step(m, e).pcbs, x, y, z)
  {
    var m' := Step(m, e);
    if !e.RtcTick? {
      ArrivesAtFocus(m, e.entry);
      FocusIs(m', Focus(m));
      if e.Open? { OpenKeepsFiles(m.pcbs[Focus(m)], e.found); }
    }
    assert forall i: nat :: i < |m.pcbs| ==> Runnable(m'.pcbs, i) == Runnable(m.pcbs, i);
  }

  /** Every tick of a quiet run goes on from where the one before left off. */
  ghost predicate Cycles(x: nat, y: nat, z: nat, c: int, foci: seq<int>)
    decreases |foci|
  {
    foci == [] || (foci[0] == After(x, y, z, c) && Cycles(x, y, z, foci[0], foci[1..]))
  }

  lemma {:induction false} QuietRunCycles(m: Machine, st: Stacks, events: seq<Event>, x: nat, y: nat, z: nat)
    requires Inv(m, st) && IsRun(m, events) && Quiet(m, events)
    requires Leaves(m.pcbs, x, y, z) && !(x == 0 && z == 5)
    ensures Cycles(x, y, z, Focus(m), Foci(m, events))
    decreases |events|
  {
    if events != [] {
      var e := events[0];
      var m' := Step(m, e);
      StepKeepsInv(m, st, e);
      if e.TimerTick? {
        TickGoesTo(m, st, e.entry, x, y, z);
        QuietRunCycles(m', st, events[1..], x, y, z);
        var rest := Foci(m', events[1..]);
        assert Foci(m, events) == [Focus(m')] + rest;
        assert ([Focus(m')] + rest)[1..] == rest;
      } else {
        CallKeepsLeaves(m, st, e, x, y, z);
        QuietRunCycles(m', st, events[1..], x, y, z);
        assert Foci(m, events) == Foci(m', events[1..]);
      }
    }
  }

  lemma TicksServeAllLeaves(m: Machine, st: Stacks, events: seq<Event>, i: nat)
    requires Inv(m, st) && IsRun(m, events) && Quiet(m, events)
    requires !(Runnable(m.pcbs, 0) && Runnable(m.pcbs, 5))
    requires i + 2 < |Foci(m, events)|
    ensures var f := Foci(m, events); AllLeaves(m.pcbs, f[i], f[i + 1], f[i + 2])
  {
    var x, y, z := ThreeLeaves(m.pcbs, st);
    assert !(x == 0 && z == 5);
    QuietRunCycles(m, st, events, x, y, z);
    var f := Foci(m, events);
    ThreeOfACycle(x, y, z, Focus(m), f, i);
    SameLeaves(m.pcbs, x, y, z, f[i], f[i + 1], f[i + 2]);
  }

  /** Fairness: in any run in which no process starts or ends, any three consecutive ticks run the
      leaves of all three terminals if and only if slots 0 and 5 are not both leaves. */
  lemma RoundRobinIff(m: Machine, st: Stacks, events: seq<Event>, i: nat)
    requires Inv(m, st) && IsRun(m, events) && Quiet(m, events)
    requires i + 2 < |Foci(m, events)|
    ensures var f := Foci(m, events);
            AllLeaves(m.pcbs, f[i], f[i + 1], f[i + 2]) <==> !(Runnable(m.pcbs, 0) && Runnable(m.pcbs, 5))
  {
    var f := Foci(m, events);
    if Runnable(m.pcbs, 0) && Runnable(m.pcbs, 5) {
      SlotFiveStarvesSlotZero(m, st, events);
      assert f[i] in f && f[i + 1] in f && f[i + 2] in f;
    } else {
      TicksServeAllLeaves(m, st, events, i);
    }
  }

  /** `a`, `b` and `c` are all the running processes. */
  ghost predicate AllLeaves(pcbs: seq<Pcb>, a: int, b: int, c: int) {
    forall l: nat :: Runnable(pcbs, l) <==> l == a || l == b || l == c
  }

  lemma SameLeaves(pcbs: seq<Pcb>, x: nat, y: nat, z: nat, a: int, b: int, c: int)
    requires Leaves(pcbs, x, y, z) && {a, b, c} == {x as int, y as int, z as int}
    ensures AllLeaves(pcbs, a, b, c)
  {
    forall l: nat
      ensures Runnable(pcbs, l) <==> l == a || l == b || l == c
    {
      assert l in {a, b, c} <==> l in {x as int, y as int, z as int};
    }
  }

  lemma {:induction false} ThreeOfACycle(x: nat, y: nat, z: nat, c: int, f: seq<int>, i: nat)
    requires x < y < z && Cycles(x, y, z, c, f) && i + 2 < |f|
    ensures {f[i], f[i + 1], f[i + 2]} == {x as int, y as int, z as int}
    decreases i
  {
    if i == 0 {
      assert f[1..][0] == f[1] && f[1..][1..][0] == f[2];
      assert Cycles(x, y, z, f[1], f[1..][1..]);
    } else {
      ThreeOfACycle(x, y, z, f[0], f[1..], i - 1);
    }
  }

  /** Starvation in the remaining case: with slots 0 and 5 both leaves, no tick of such a run ever
      goes to slot 0, wherever the processor is at the start. */
  lemma {:induction false} SlotFiveStarvesSlotZero(m: Machine, st: Stacks, events: seq<Event>)
    requires Inv(m, st) && IsRun(m, events) && Quiet(m, events)
    requires Runnable(m.pcbs, 0) && Runnable(m.pcbs, 5)
    ensures 0 !in Foci(m, events)
    decreases |events|
  {
    if events != [] {
      var x, y, z := ThreeLeaves(m.pcbs, st);
      assert x == 0 && z == 5;
      var e := events[0];
      StepKeepsInv(m, st, e);
      if e.TimerTick? {
        TickGoesTo(m, st, e.entry, x, y, z);
      } else {
        CallKeepsLeaves(m, st, e, x, y, z);
      }
      SlotFiveStarvesSlotZero(Step(m, e), st, events[1..]);
    }
  }

  // ---------------------------------------------------------------------------
  // The starving state is reachable
  // ---------------------------------------------------------------------------

  /** An entry from user mode with a little on the kernel stack. */
  function FromUser(s: nat): Entry {
    Entry(true, Context(StackBase(s) - 64, 1))
  }

  lemma FromUserArrives(m: Machine, c: nat)
    requires c < MAX_PROCESSES && m.esp0 == StackBase(c)
    ensures Arrives(m, FromUser(c)) && Current(FromUser(c)) == c
  {
    RoundingFindsPcb(c, m.esp0);
    RoundingFindsPcb(c, FromUser(c).context.esp);
  }

  lemma SpawnFrom(m: Machine, st: Stacks, start: nat, slot: nat)
    requires Inv(m, st) && start != 0 && FreeSlot(m.pcbs, 0) == Some(slot)
    ensures var c := Focus(m); var e := Execute(FromUser(c), start);
            && Possible(m, e)
            && Inv(Step(m, e), Pushed(st, m.pcbs[c].terminal, slot))
            && Focus(Step(m, e)) == slot && Runnable(Step(m, e).pcbs, slot)
            && (forall i: nat :: i < MAX_PROCESSES && i != c && i != slot ==> Step(m, e).pcbs[i] == m.pcbs[i])
            && Step(m, e).pcbs[c].inUse
  {
    var c := Focus(m);
    FromUserArrives(m, c);
    RunnableIsTop(m.pcbs, st, c);
    EntryIsPossible(m, st, Execute(FromUser(c), start));
    ExecuteKeepsInv(m, st, Execute(FromUser(c), start));
    FocusIs(Step(m, Execute(FromUser(c), start)), slot);
  }

  /** Starting programs from within programs, away from slot 0, until the table is full. */
  lemma {:induction false} FillTable(m: Machine, st: Stacks, start: nat, slot: nat) returns (events: seq<Event>)
    requires Inv(m, st) && start != 0 && slot < MAX_PROCESSES
    requires forall i: nat :: i < MAX_PROCESSES ==> (m.pcbs[i].inUse <==> i < slot)
    requires Runnable(m.pcbs, 0) && Focus(m) != 0
    ensures IsRun(m, events)
    ensures var m' := Run(m, events); Runnable(m'.pcbs, 0) && Runnable(m'.pcbs, 5) && Focus(m') == 5
    decreases MAX_PROCESSES - slot
  {
    FreeSlotSkips(m.pcbs, slot);
    SpawnFrom(m, st, start, slot);
    var e := Execute(FromUser(Focus(m)), start);
    var rest := [];
    if slot < 5 {
      rest := FillTable(Step(m, e), Pushed(st, m.pcbs[Focus(m)].terminal, slot), start, slot + 1);
    }
    PrependRun(m, e, rest);
    events := [e] + rest;
  }

  /** Tick over to terminal 1 and nest three programs there: slots 0 and 5 are leaves, and slot 0
      is not running. */
  lemma StarvationIsReachable(start: nat) returns (events: seq<Event>)
    requires start != 0
    ensures IsRun(Boot(start), events)
    ensures var m := Run(Boot(start), events); Runnable(m.pcbs, 0) && Runnable(m.pcbs, 5) && Focus(m) == 5
  {
    var m0, st, e := Boot(start), [[0], [1], [2]], TimerTick(FromUser(0));
    BootHolds(start);
    FocusIs(m0, 0);
    FromUserArrives(m0, 0);
    EntryIsPossible(m0, st, e);
    StepKeepsInv(m0, st, e);
    FirstTick(m0);
    var rest := FillTable(Step(m0, e), st, start, 3);
    PrependRun(m0, e, rest);
    events := [e] + rest;
  }

  lemma FirstTick(m: Machine)
    requires m.esp0 == StackBase(0) && Possible(m, TimerTick(FromUser(0)))
    requires forall i: nat :: i < MAX_PROCESSES ==> (m.pcbs[i].inUse <==> i < 3) && (i < 3 ==> m.pcbs[i].status == Running && m.pcbs[i].regs.esp == 0)
    ensures var m' := Step(m, TimerTick(FromUser(0)));
            && Focus(m') == 1 && Runnable(m'.pcbs, 0)
            && forall i: nat :: i < MAX_PROCESSES ==> (m'.pcbs[i].inUse <==> i < 3)
  {
    FromUserArrives(m, 0);
    FirstOfFour(m.pcbs, 1, 2, 3, 4);
    FocusIs(Step(m, TimerTick(FromUser(0))), 1);
  }

  lemma FreeSlotSkips(pcbs: seq<Pcb>, slot: nat)
    requires slot < |pcbs| && !pcbs[slot].inUse && forall i :: 0 <= i < slot ==> pcbs[i].inUse
    ensures FreeSlot(pcbs, 0) == Some(slot)
  {
  }
}
