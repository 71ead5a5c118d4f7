/** One terminal seen from outside: its line discipline together with its screen, and the
    three terminals as a system.  `None` stands for a store outside the screen; no run is
    followed past one. */
module TerminalModel {
  import opened Common
  import opened LineDiscipline
  import opened Screens

  datatype Terminal = Terminal(line: Line, screen: Screen)

  const FRESH := Terminal(EMPTY_LINE, CLEAR)

  // ---------------------------------------------------------------------------
  // Echo
  // ---------------------------------------------------------------------------

  /** `x & SPACES_IN_TAB`: bit 2 of the column (the mask is 4, not 3). */
  function TabBit(x: nat): nat {
    if (x / 4) % 2 == 1 then 4 else 0
  }

  /** Three bits of the column are this one and the two below it. */
  lemma TabBitIsBitTwo(x: nat)
    ensures (TabBit(x) == 0 || TabBit(x) == 4) && x % 8 == TabBit(x) + x % 4
  {
    var q := x / 4;
    assert q == 2 * (q / 2) + q % 2;
    LowThreeBits(q / 2, 4 * (q % 2) + x % 4);
  }

  lemma LowThreeBits(high: nat, low: nat)
    requires low < 8
    ensures (8 * high + low) % 8 == low
  {
  }

  /** How many spaces the fall-through switch prints for a typed tab. */
  function TabSpaces(x: nat): nat {
    if TabBit(x) == 0 then 4 else 0
  }

  /** How many backspaces the fall-through switch prints when a tab is erased. */
  function TabBackspaces(x: nat): nat {
    var pos := x - TabBit(x);
    if pos == 0 then 4 else if pos <= 3 then pos else 0
  }

  function Repeat(ch: Byte, n: nat): (s: seq<Byte>)
    ensures |s| == n
    ensures forall i :: 0 <= i < n ==> s[i] == ch
  {
    seq(n, _ => ch)
  }

  /** What `keyboard_putc` sends to the screen for a key, given the buffer and the cursor column. */
  function Echo(buf: seq<Byte>, x: nat, ch: Byte): seq<Byte> {
    if ch == BACKSPACE then
      if |buf| == 0 || buf[|buf| - 1] == NEWLINE then []
      else if buf[|buf| - 1] == TAB then Repeat(BACKSPACE, TabBackspaces(x))
      else [BACKSPACE]
    else if ch == NEWLINE then
      if |buf| >= KEYBOARD_BUFFER_SIZE then [] else [NEWLINE]
    else if ch == 0 || |buf| >= KEYBOARD_BUFFER_SIZE - 1 then []
    else if ch == TAB then Repeat(SPACE, TabSpaces(x))
    else [ch]
  }

  // ---------------------------------------------------------------------------
  // Steps of one terminal
  // ---------------------------------------------------------------------------

  /** A key, Ctrl+L, a reset, a read and a program's write. */
  datatype Action = Key(ch: Byte) | Redraw | ResetTerminal | ReadBytes(nbytes: int) | Write(bytes: seq<Byte>)

  function Shown(line: Line, screen: Option<Screen>): Option<Terminal> {
    match screen case None => None case Some(s) => Some(Terminal(line, s))
  }

  function Act(t: Terminal, a: Action): (r: Option<Terminal>)
    requires Valid(t.screen)
    ensures r.Some? ==> Valid(r.value.screen)
  {
    match a
    case Key(ch) => Shown(PressKey(t.line, ch), PutAll(t.screen, Echo(t.line.buf, t.screen.x, ch)))
    case Redraw => Shown(t.line, PutAll(CLEAR, t.line.buf))
    case ResetTerminal => Some(FRESH)
    case ReadBytes(nbytes) =>
      Some(if t.line.ready == 0 then t else t.(line := ReadLine(t.line, nbytes).0))
    case Write(bytes) => Shown(t.line, PutAll(t.screen, bytes))
  }

  function Perform(t: Terminal, actions: seq<Action>): (r: Option<Terminal>)
    requires Valid(t.screen)
    ensures r.Some? ==> Valid(r.value.screen)
    decreases |actions|
  {
    if actions == [] then Some(t)
    else
      match Act(t, actions[0])
      case None => None
      case Some(t') => Perform(t', actions[1..])
  }

  // ---------------------------------------------------------------------------
  // Cursor safety
  // ---------------------------------------------------------------------------

  /** The bytes after the last buffered newline: those a backspace can still erase. */
  function Erasable(buf: seq<Byte>): nat {
    if buf == [] || buf[|buf| - 1] == NEWLINE then 0 else 1 + Erasable(buf[..|buf| - 1])
  }

  const BOTTOM_ROW := 1920  // linear position of the first cell of the last row

  /** A backspace in the home cell cannot happen: the cursor is at least as far from it as
      there are characters left to erase. */
  ghost predicate Safe(t: Terminal) {
    && Valid(t.screen)
    && WellFormed(t.line.buf)
    && TAB !in t.line.buf
    && t.line.ready <= Newlines(t.line.buf)
    && Pos(t.screen) >= Erasable(t.line.buf)
  }

  /** Typing without tabs, and programs that do not print backspaces. */
  predicate Tame(a: Action) {
    match a
    case Key(ch) => ch != TAB
    case Write(bytes) => BACKSPACE !in bytes
    case _ => true
  }

  lemma ErasableBound(buf: seq<Byte>)
    ensures Erasable(buf) <= |buf|
  {
  }

  lemma ErasableSnoc(buf: seq<Byte>, ch: Byte)
    ensures Erasable(buf + [ch]) == if ch == NEWLINE then 0 else 1 + Erasable(buf)
  {
    assert (buf + [ch])[..|buf|] == buf;
  }

  /** Dropping a prefix that leaves a newline, or ends with one, leaves the erasable suffix alone. */
  lemma {:induction false} ErasableDrop(buf: seq<Byte>, n: nat)
    requires n <= |buf| && (NEWLINE in buf[n..] || EndsLine(buf[..n]))
    ensures Erasable(buf[n..]) == Erasable(buf)
    decreases |buf|
  {
    if n == |buf| {
      assert buf[..n] == buf;
    } else if buf[|buf| - 1] != NEWLINE {
      var m := |buf| - 1;
      assert buf[n..] == buf[..m][n..] + [buf[m]];
      assert buf[..m][..n] == buf[..n];
      ErasableSnoc(buf[..m][n..], buf[m]);
      ErasableDrop(buf[..m], n);
    }
  }

  /** Output without backspaces never moves the cursor back above the last row. */
  lemma PutAdvances(s: Screen, ch: Byte)
    requires Valid(s) && ch != BACKSPACE
    ensures Pos(Put(s, ch)) >= Min(Pos(s), BOTTOM_ROW)
    ensures ch != TAB ==> Pos(Put(s, ch)) >= Min(Pos(s) + 1, BOTTOM_ROW)
  {
  }

  lemma {:induction false} PutAllAdvances(s: Screen, bytes: seq<Byte>)
    requires Valid(s) && BACKSPACE !in bytes
    ensures PutAll(s, bytes).Some?
    ensures Pos(PutAll(s, bytes).value) >= Min(Pos(s), BOTTOM_ROW)
    ensures TAB !in bytes ==> Pos(PutAll(s, bytes).value) >= Min(Erasable(bytes), BOTTOM_ROW)
    decreases |bytes|
  {
    if bytes != [] {
      var n := |bytes| - 1;
      PutAllAdvances(s, bytes[..n]);
      assert bytes[n] in bytes;
      PutAdvances(PutAll(s, bytes[..n]).value, bytes[n]);
    }
  }

  lemma BackspaceStepsBack(s: Screen)
    requires Valid(s) && !WildWrite(s, BACKSPACE)
    ensures Pos(Put(s, BACKSPACE)) == Pos(s) - 1
  {
  }

  lemma PutAllOne(s: Screen, ch: Byte)
    requires Valid(s)
    ensures PutAll(s, [ch]) == if WildWrite(s, ch) then None else Some(Put(s, ch))
    ensures PutAll(s, []) == Some(s)
  {
    assert [ch][..0] == [];
  }

  /** Erasing `n` characters leaves the screen if and only if fewer than `n` cells precede the cursor. */
  lemma {:induction false} BackspacesLeaveScreenIff(s: Screen, n: nat)
    requires Valid(s)
    ensures PutAll(s, Repeat(BACKSPACE, n)).None? <==> n > Pos(s)
    ensures n <= Pos(s) ==> Pos(PutAll(s, Repeat(BACKSPACE, n)).value) == Pos(s) - n
  {
    if n > 0 {
      assert Repeat(BACKSPACE, n)[..n - 1] == Repeat(BACKSPACE, n - 1);
      BackspacesLeaveScreenIff(s, n - 1);
      if n - 1 <= Pos(s) {
        var s' := PutAll(s, Repeat(BACKSPACE, n - 1)).value;
        if !WildWrite(s', BACKSPACE) {
          BackspaceStepsBack(s');
        }
      }
    }
  }

  lemma KeyIsSafe(t: Terminal, ch: Byte)
    requires Safe(t) && ch != TAB
    ensures Act(t, Key(ch)).Some? && Safe(Act(t, Key(ch)).value)
  {
    PressCounts(t.line, ch);
    PressKeepsWellFormed(t.line, ch);
    if ch == BACKSPACE {
      EraseLeavesRoom(t);
    } else {
      TypingLeavesRoom(t, ch);
    }
  }

  /** A backspace on a safe terminal: the cursor stays as far from home as there is to erase. */
  lemma EraseLeavesRoom(t: Terminal)
    requires Safe(t)
    ensures Act(t, Key(BACKSPACE)).Some?
    ensures var t' := Act(t, Key(BACKSPACE)).value; TAB !in t'.line.buf && Pos(t'.screen) >= Erasable(t'.line.buf)
  {
    PutAllOne(t.screen, BACKSPACE);
    if !WildWrite(t.screen, BACKSPACE) {
      BackspaceStepsBack(t.screen);
    }
  }

  lemma TypingLeavesRoom(t: Terminal, ch: Byte)
    requires Safe(t) && ch != TAB && ch != BACKSPACE
    ensures Act(t, Key(ch)).Some?
    ensures var t' := Act(t, Key(ch)).value; TAB !in t'.line.buf && Pos(t'.screen) >= Erasable(t'.line.buf)
  {
    PutAllOne(t.screen, ch);
    ErasableBound(t.line.buf);
    ErasableSnoc(t.line.buf, ch);
    PutAdvances(t.screen, ch);
  }

  lemma ReadIsSafe(t: Terminal, nbytes: int)
    requires Safe(t)
    ensures Safe(Act(t, ReadBytes(nbytes)).value)
  {
    if t.line.ready > 0 {
      var buf := t.line.buf;
      var n := ReadCount(buf, nbytes);
      NewlinesBound(buf);
      ReadTakesLinePrefix(buf, nbytes);
      ErasableDrop(buf, n);
      SuffixWellFormed(buf, n);
    }
  }

  lemma SuffixWellFormed(buf: seq<Byte>, n: nat)
    requires WellFormed(buf) && TAB !in buf && n <= |buf|
    ensures WellFormed(buf[n..]) && TAB !in buf[n..]
  {
    assert forall i :: 0 <= i < |buf| - n ==> buf[n..][i] == buf[n + i];
  }

  lemma ActionIsSafe(t: Terminal, a: Action)
    requires Safe(t) && Tame(a)
    ensures Act(t, a).Some? && Safe(Act(t, a).value)
  {
    ErasableBound(t.line.buf);
    match a
    case Key(ch) => KeyIsSafe(t, ch);
    case Redraw => PutAllAdvances(CLEAR, t.line.buf);
    case ResetTerminal =>
    case ReadBytes(nbytes) => ReadIsSafe(t, nbytes);
    case Write(bytes) => PutAllAdvances(t.screen, bytes);
  }

  lemma {:induction false} CursorSafetyFrom(t: Terminal, actions: seq<Action>)
    requires Safe(t) && forall i :: 0 <= i < |actions| ==> Tame(actions[i])
    ensures Perform(t, actions).Some? && Safe(Perform(t, actions).value)
    decreases |actions|
  {
    if actions != [] {
      ActionIsSafe(t, actions[0]);
      CursorSafetyFrom(Act(t, actions[0]).value, actions[1..]);
    }
  }

  /** From a fresh terminal, no tab-free typing, redrawing, resetting, reading (of any size)
      and backspace-free program output ever leaves the screen, and there is always room
      before the cursor to erase the line being typed. */
  lemma CursorSafety(actions: seq<Action>)
    requires forall i :: 0 <= i < |actions| ==> Tame(actions[i])
    ensures Perform(FRESH, actions).Some?
    ensures var t := Perform(FRESH, actions).value;
            Valid(t.screen) && Pos(t.screen) >= Erasable(t.line.buf)
  {
    CursorSafetyFrom(FRESH, actions);
  }

  /** With tabs or without, and in any state: a key leaves the screen if and only if it erases more
      cells than precede the cursor.  Erasing a tab erases as many as its column says. */
  lemma KeyLeavesScreenIff(t: Terminal, ch: Byte)
    requires Valid(t.screen)
    ensures Act(t, Key(ch)).None? <==>
            && ch == BACKSPACE && t.line.buf != [] && t.line.buf[|t.line.buf| - 1] != NEWLINE
            && (if t.line.buf[|t.line.buf| - 1] == TAB then TabBackspaces(t.screen.x) else 1) > Pos(t.screen)
  {
    var echo := Echo(t.line.buf, t.screen.x, ch);
    if ch != BACKSPACE {
      PutAllAdvances(t.screen, echo);
    } else if echo != [] {
      BackspacesLeaveScreenIff(t.screen, |echo|);
      assert echo == Repeat(BACKSPACE, |echo|);
    }
  }

  /** A typed tab breaks it: on a fresh terminal, a b c d, Tab, Backspace, Backspace. */
  lemma TabBreaksCursorSafety()
    ensures Perform(FRESH, [Key(97), Key(98), Key(99), Key(100), Key(TAB), Key(BACKSPACE), Key(BACKSPACE)]).None?
  {
    var t1 := TypeLetter(FRESH, 97);
    var t2 := TypeLetter(t1, 98);
    var t3 := TypeLetter(t2, 99);
    var t4 := TypeLetter(t3, 100);
    assert Echo(t4.line.buf, 4, TAB) == [];
    PutAllOne(t4.screen, TAB);
    var t5 := Act(t4, Key(TAB)).value;
    assert t5.line.buf[..4] == t4.line.buf;
    BackspacesLeaveScreenIff(t5.screen, 4);
    var t6 := Act(t5, Key(BACKSPACE)).value;
    PutAllOne(t6.screen, BACKSPACE);
    assert Act(t6, Key(BACKSPACE)).None?;
    var keys := [Key(97), Key(98), Key(99), Key(100), Key(TAB), Key(BACKSPACE), Key(BACKSPACE)];
    assert Perform(t6, keys[6..]) == None;
    assert Perform(t5, keys[5..]) == Perform(t6, keys[5..][1..]);
    assert Perform(t4, keys[4..]) == Perform(t5, keys[4..][1..]);
    assert Perform(t3, keys[3..]) == Perform(t4, keys[3..][1..]);
    assert Perform(t2, keys[2..]) == Perform(t3, keys[2..][1..]);
    assert Perform(t1, keys[1..]) == Perform(t2, keys[1..][1..]);
  }

  lemma TypeLetter(t: Terminal, ch: Byte) returns (t': Terminal)
    requires Valid(t.screen) && t.screen.x < 8 && t.screen.y == 0 && |t.line.buf| < 8
    requires 97 <= ch < 123
    ensures Act(t, Key(ch)) == Some(t')
    ensures t'.screen.x == t.screen.x + 1 && t'.screen.y == 0 && Valid(t'.screen)
    ensures t'.line.buf == t.line.buf + [ch]
  {
    PutAllOne(t.screen, ch);
    t' := Act(t, Key(ch)).value;
  }

  // ---------------------------------------------------------------------------
  // The line discipline inside the terminal
  // ---------------------------------------------------------------------------

  /** The actions that touch the input side. */
  function LineEvents(actions: seq<Action>): seq<Event>
    decreases |actions|
  {
    if actions == [] then []
    else
      var rest := LineEvents(actions[1..]);
      match actions[0]
      case Key(ch) => [Press(ch)] + rest
      case ReadBytes(nbytes) => [Read(nbytes)] + rest
      case ResetTerminal => [Reset] + rest
      case _ => rest
  }

  /** Output, redrawing and scrolling never disturb the input side: as long as the screen is
      not left, the line state is that of the line events alone, so every result about
      histories holds of the whole terminal. */
  lemma {:induction false} LineRunsOnItsOwn(t: Terminal, h: History, actions: seq<Action>)
    requires Valid(t.screen) && h.line == t.line && Perform(t, actions).Some?
    ensures Perform(t, actions).value.line == Run(h, LineEvents(actions)).line
    decreases |actions|
  {
    if actions != [] {
      var a := actions[0];
      var rest := LineEvents(actions[1..]);
      var t' := Act(t, a).value;
      match a
      case Key(ch) => UnfoldRun(h, Press(ch), rest); LineRunsOnItsOwn(t', Step(h, Press(ch)), actions[1..]);
      case ReadBytes(n) => UnfoldRun(h, Read(n), rest); LineRunsOnItsOwn(t', Step(h, Read(n)), actions[1..]);
      case ResetTerminal => UnfoldRun(h, Reset, rest); LineRunsOnItsOwn(t', Step(h, Reset), actions[1..]);
      case Redraw => LineRunsOnItsOwn(t', h, actions[1..]);
      case Write(_) => LineRunsOnItsOwn(t', h, actions[1..]);
    }
  }

  lemma UnfoldRun(h: History, e: Event, rest: seq<Event>)
    ensures Run(h, [e] + rest) == Run(Step(h, e), rest)
  {
    assert ([e] + rest)[1..] == rest;
  }

  // ---------------------------------------------------------------------------
  // Three terminals
  // ---------------------------------------------------------------------------

  datatype System = System(terminals: seq<Terminal>, active: Byte)

  datatype SystemEvent = On(t: Byte, action: Action) | Switch(to: Byte)

  predicate ValidSystem(s: System) {
    && |s.terminals| == NUM_TERMINALS && s.active < NUM_TERMINALS
    && forall t :: 0 <= t < NUM_TERMINALS ==> Valid(s.terminals[t].screen)
  }

  predicate Addressed(e: SystemEvent) {
    e.On? ==> e.t < NUM_TERMINALS
  }

  function SystemStep(s: System, e: SystemEvent): (r: Option<System>)
    requires ValidSystem(s) && Addressed(e)
    ensures r.Some? ==> ValidSystem(r.value)
  {
    match e
    case Switch(to) => Some(if to < NUM_TERMINALS then s.(active := to) else s)
    case On(t, a) =>
      match Act(s.terminals[t], a)
      case None => None
      case Some(term) => Some(s.(terminals := s.terminals[t := term]))
  }

  function SystemRun(s: System, events: seq<SystemEvent>): (r: Option<System>)
    requires ValidSystem(s) && forall i :: 0 <= i < |events| ==> Addressed(events[i])
    ensures r.Some? ==> ValidSystem(r.value)
    decreases |events|
  {
    if events == [] then Some(s)
    else
      match SystemStep(s, events[0])
      case None => None
      case Some(s') => SystemRun(s', events[1..])
  }

  /** The actions of terminal `t` alone. */
  function Project(events: seq<SystemEvent>, t: Byte): seq<Action>
    decreases |events|
  {
    if events == [] then []
    else if events[0].On? && events[0].t == t then [events[0].action] + Project(events[1..], t)
    else Project(events[1..], t)
  }

  /** Sharing one video memory is invisible: for every interleaving of the three terminals'
      actions and of switches, each terminal ends as if it had run alone on its own actions. */
  lemma {:induction false} TerminalsAreIndependent(s: System, events: seq<SystemEvent>, t: Byte)
    requires ValidSystem(s) && t < NUM_TERMINALS
    requires forall i :: 0 <= i < |events| ==> Addressed(events[i])
    requires SystemRun(s, events).Some?
    ensures Perform(s.terminals[t], Project(events, t)) == Some(SystemRun(s, events).value.terminals[t])
    decreases |events|
  {
    if events != [] {
      var s' := SystemStep(s, events[0]).value;
      TerminalsAreIndependent(s', events[1..], t);
      if events[0].On? && events[0].t == t {
        var all := [events[0].action] + Project(events[1..], t);
        assert all[1..] == Project(events[1..], t);
      }
    }
  }

  ghost predicate AllSafe(s: System) {
    ValidSystem(s) && forall t :: 0 <= t < NUM_TERMINALS ==> Safe(s.terminals[t])
  }

  const BOOTED := System([FRESH, FRESH, FRESH], 0)

  lemma BootedIsSafe()
    ensures AllSafe(BOOTED)
  {
  }

  /** No interleaving of tame actions on the three terminals, with any switching between them,
      ever leaves a screen. */
  lemma {:induction false} SystemSafety(s: System, events: seq<SystemEvent>)
    requires AllSafe(s)
    requires forall i :: 0 <= i < |events| ==> Addressed(events[i]) && (events[i].On? ==> Tame(events[i].action))
    ensures SystemRun(s, events).Some? && AllSafe(SystemRun(s, events).value)
    decreases |events|
  {
    if events != [] {
      var e := events[0];
      if e.On? {
        ActionIsSafe(s.terminals[e.t], e.action);
      }
      SystemSafety(SystemStep(s, e).value, events[1..]);
    }
  }
}
