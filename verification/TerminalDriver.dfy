/** The terminal driver of tty/terminal.c: the shared display and, per terminal, a ring buffer
    with a newline counter. */
module TerminalDriver {
  import opened Common
  import opened RingBuffer
  import opened LineDiscipline
  import Screens
  import opened TerminalModel
  import opened DisplayDriver

  /** The input side of one terminal: `input_buffer[t]`, `input_buffer_internal[t]` and
      `new_line_ready[t]`. */
  class LineInput {
    const ring: CircularBuffer
    const store: array<Byte>
    var ready: Byte

    ghost predicate Valid()
      reads this, ring
    {
      store.Length == KEYBOARD_BUFFER_SIZE && ring.Valid() && ring.data == store
    }

    ghost function State(): Line
      requires Valid()
      reads this, ring, store
    {
      Line(ring.Contents(), ready)
    }

    constructor ()
      ensures Valid() && State() == EMPTY_LINE
      ensures fresh(ring) && fresh(store)
    {
      var bytes := new Byte[KEYBOARD_BUFFER_SIZE];
      store := bytes;
      ring := new CircularBuffer(bytes);
      ready := 0;
    }

    /** The buffer part of `reset_terminal`. */
    method Reset()
      requires Valid()
      modifies this, ring
      ensures Valid() && State() == EMPTY_LINE
    {
      ring.Init(store);
      ready := 0;
    }

    /** The buffer part of the backspace branch: the byte erased, if there was one to erase. */
    method Erase() returns (erased: Option<Byte>)
      requires Valid()
      modifies ring
      ensures Valid() && State() == PressKey(old(State()), BACKSPACE)
      ensures var buf := old(State()).buf;
              erased == if |buf| == 0 || buf[|buf| - 1] == NEWLINE then None else Some(buf[|buf| - 1])
    {
      if ring.currentLen == 0 {
        return None;
      }
      erased := ring.PeekEndByte();
      if erased == Some(NEWLINE) {
        return None;
      }
      var _ := ring.RemoveEndByte();
    }

    /** The buffer part of the Enter branch; false if the buffer is full. */
    method Enter() returns (stored: bool)
      requires Valid()
      modifies this, ring, store
      ensures Valid() && State() == PressKey(old(State()), NEWLINE)
      ensures stored == (|old(State()).buf| < KEYBOARD_BUFFER_SIZE)
    {
      if ring.currentLen >= KEYBOARD_BUFFER_SIZE {
        return false;
      }
      var _ := ring.PutByte(NEWLINE);
      var count: int := ready;
      ready := (count + 1) % 256;
      stored := true;
    }

    /** The buffer part of the tab and printable branches; false if only Enter still fits. */
    method Text(ch: Byte) returns (stored: bool)
      requires Valid() && ch != BACKSPACE && ch != NEWLINE
      modifies ring, store
      ensures Valid() && State() == PressKey(old(State()), ch)
      ensures stored == (ch > 0 && |old(State()).buf| < KEYBOARD_BUFFER_SIZE - 1)
    {
      if ch == 0 || ring.currentLen >= KEYBOARD_BUFFER_SIZE - 1 {
        return false;
      }
      var _ := ring.PutByte(ch);
      stored := true;
    }

    /** The fall-through switch of the tab branch, on the column masked with 4. */
    static method EchoTab(x: nat) returns (echo: seq<Byte>)
      ensures echo == Repeat(SPACE, TabSpaces(x))
    {
      var pos := TabBit(x);
      echo := [];
      if pos <= 0 {
        echo := echo + [SPACE];
      }
      if pos <= 1 {
        echo := echo + [SPACE];
      }
      if pos <= 2 {
        echo := echo + [SPACE];
      }
      if pos <= 3 {
        echo := echo + [SPACE];
      }
    }

    /** The fall-through switch for an erased tab: 0, 3, 2 and 1 in that order. */
    static method EraseTab(x: nat) returns (echo: seq<Byte>)
      ensures echo == Repeat(BACKSPACE, TabBackspaces(x))
    {
      var pos := x - TabBit(x);
      echo := [];
      if pos == 0 {
        echo := echo + [BACKSPACE];
      }
      if pos == 0 || pos == 3 {
        echo := echo + [BACKSPACE];
      }
      if pos == 0 || pos == 3 || pos == 2 {
        echo := echo + [BACKSPACE];
      }
      if pos == 0 || pos == 3 || pos == 2 || pos == 1 {
        echo := echo + [BACKSPACE];
      }
    }

    /** The buffer part of `keyboard_putc`, and what it sends to the screen for the key. */
    method Press(ch: Byte, x: nat) returns (echo: seq<Byte>)
      requires Valid()
      modifies this, ring, store
      ensures Valid() && State() == PressKey(old(State()), ch)
      ensures echo == Echo(old(State()).buf, x, ch)
    {
      echo := [];
      if ch == BACKSPACE {
        var erased := Erase();
        if erased == Some(TAB) {
          echo := EraseTab(x);
        } else if erased.Some? {
          echo := [BACKSPACE];
        }
      } else if ch == NEWLINE {
        var stored := Enter();
        if stored {
          echo := [NEWLINE];
        }
      } else {
        var stored := Text(ch);
        if stored {
          if ch == TAB {
            echo := EchoTab(x);
          } else {
            echo := [ch];
          }
        }
      }
    }

    /** `terminal_read` once it has been woken: one line, or as much of it as is asked for. */
    method TerminalRead(nbytes: int) returns (chunk: seq<Byte>)
      requires Valid() && ready > 0
      modifies this, ring
      ensures Valid() && (State(), chunk) == ReadLine(old(State()), nbytes)
    {
      var found := ring.Find(NEWLINE);
      var maxLen := found + 1;
      var count := Unsigned32(nbytes);
      if maxLen < count {
        count := maxLen;
      }
      chunk := ring.Get(count);
      ready := ready - 1;
    }
  }

  class Driver {
    const display: Display
    const inputs: seq<LineInput>
    ghost const rings: seq<CircularBuffer>
    ghost const stores: seq<array<Byte>>

    ghost predicate Apart() {
      && |inputs| == |rings| == |stores| == NUM_TERMINALS
      && (forall t :: 0 <= t < NUM_TERMINALS ==> rings[t] == inputs[t].ring && stores[t] == inputs[t].store)
      && (forall t, u :: 0 <= t < u < NUM_TERMINALS ==>
            inputs[t] != inputs[u] && rings[t] != rings[u] && stores[t] != stores[u])
      && (forall t :: 0 <= t < NUM_TERMINALS ==> stores[t] as object != display.video)
      && (forall t, u :: 0 <= t < NUM_TERMINALS && 0 <= u < |display.outputs| ==>
            stores[t] as object != display.outputs[u])
    }

    ghost predicate WiredTo(n: nat)
      reads display, inputs, rings
    {
      && display.MappedTo(n)
      && Apart()
      && (forall t :: 0 <= t < NUM_TERMINALS ==> inputs[t].Valid())
    }

    ghost predicate Valid()
      reads display, inputs, rings
    {
      WiredTo(NUM_TERMINALS) && display.Valid()
    }

    ghost function TerminalOf(t: Byte): (term: Terminal)
      requires t < |inputs| == NUM_TERMINALS && display.MappedTo(t + 1) && inputs[t].Valid()
      reads display, display.video, display.outputs
      reads if t < |inputs| then {inputs[t], inputs[t].ring, inputs[t].store} else {}
      ensures Screens.Valid(term.screen)
    {
      Terminal(inputs[t].State(), display.ScreenOf(t))
    }

    /** The driver over the static buffers of the source, which do not overlap. */
    constructor (display: Display, inputs: seq<LineInput>)
      requires display.MappedTo(0) && |inputs| == NUM_TERMINALS
      requires forall t :: 0 <= t < NUM_TERMINALS ==> inputs[t].Valid()
      requires forall t, u :: 0 <= t < u < NUM_TERMINALS ==>
                 inputs[t] != inputs[u] && inputs[t].ring != inputs[u].ring && inputs[t].store != inputs[u].store
      requires forall t :: 0 <= t < NUM_TERMINALS ==> inputs[t].store as object != display.video
      requires forall t, u :: 0 <= t < NUM_TERMINALS && 0 <= u < NUM_TERMINALS ==>
                 inputs[t].store as object != display.outputs[u]
      ensures WiredTo(0) && this.display == display && this.inputs == inputs
    {
      this.display := display;
      this.inputs := inputs;
      rings := [inputs[0].ring, inputs[1].ring, inputs[2].ring];
      stores := [inputs[0].store, inputs[1].store, inputs[2].store];
    }

    /** `keyboard_putc`: one key, buffered and echoed. */
    method KeyboardPutc(t: Byte, ch: Byte) returns (fault: bool)
      requires Valid() && t < NUM_TERMINALS
      modifies display`cursorX, display`cursorY, display`hardwareCursor, display.videoMemory[t]
      modifies inputs[t], inputs[t].ring, inputs[t].store
      ensures Valid()
      ensures fault == Act(old(TerminalOf(t)), Key(ch)).None?
      ensures !fault ==> TerminalOf(t) == Act(old(TerminalOf(t)), Key(ch)).value
      ensures forall u: Byte :: u < NUM_TERMINALS && u != t ==> TerminalOf(u) == old(TerminalOf(u))
    {
      var echo := inputs[t].Press(ch, display.cursorX[t]);
      fault := display.PutBytes(t, echo);
    }

    /** The Ctrl+L path of `keyboard_handler`: clear, then print the buffered input again. */
    method RedrawTerminal(t: Byte) returns (fault: bool)
      requires Valid() && t < NUM_TERMINALS
      modifies display`cursorX, display`cursorY, display`hardwareCursor, display.videoMemory[t]
      ensures Valid()
      ensures fault == Act(old(TerminalOf(t)), Redraw).None?
      ensures !fault ==> TerminalOf(t) == Act(old(TerminalOf(t)), Redraw).value
      ensures forall u: Byte :: u < NUM_TERMINALS && u != t ==> TerminalOf(u) == old(TerminalOf(u))
    {
      var current := inputs[t].ring.Peek(KEYBOARD_BUFFER_SIZE);
      assert current == inputs[t].State().buf;
      display.ClearTerminal(t, NUM_TERMINALS);
      fault := display.PutBytes(t, current);
    }

    /** `reset_terminal` */
    method ResetTerminalState(t: Byte, ghost n: nat)
      requires WiredTo(n) && display.Movable(t, n)
      modifies display`cursorX, display`cursorY, display`hardwareCursor, display.videoMemory[t]
      modifies inputs[t], inputs[t].ring
      ensures WiredTo(n) && display.CursorShown() && TerminalOf(t) == FRESH
      ensures forall u: Byte :: u < n && u != t ==> TerminalOf(u) == old(TerminalOf(u))
    {
      inputs[t].Reset();
      display.ClearTerminal(t, n);
      display.SetHardwareCursor(t, 0, 0, n);
    }

    /** One turn of its loop. */
    method InitTerminal(t: Byte)
      requires t < NUM_TERMINALS && WiredTo(t) && display.active == 0 && (t > 0 ==> display.CursorShown())
      modifies display, display.video, display.outputs, inputs[t], rings[t]
      ensures WiredTo(t + 1) && display.active == 0 && display.CursorShown() && TerminalOf(t) == FRESH
      ensures forall u: Byte :: u < t ==> TerminalOf(u) == old(TerminalOf(u))
    {
      assert inputs[t].ring == rings[t];
      display.MapTerminal(t);
      ResetTerminalState(t, t + 1);
    }

    /** `multiple_terminal_init`, with terminal 0 active: three fresh terminals, whatever the output
        pointers were and whatever was in the screens and buffers, and the hardware cursor in place. */
    method MultipleTerminalInit()
      requires WiredTo(0) && display.active == 0
      modifies display, display.video, display.outputs, inputs, rings
      ensures Valid() && Sys() == BOOTED
    {
      for i := 0 to NUM_TERMINALS
        invariant WiredTo(i) && display.active == 0 && (i > 0 ==> display.CursorShown())
        invariant forall t: Byte :: t < i ==> TerminalOf(t) == FRESH
      {
        InitTerminal(i);
      }
    }

    /** `terminal_read` once it has been woken. */
    method TerminalRead(t: Byte, nbytes: int) returns (chunk: seq<Byte>)
      requires Valid() && t < NUM_TERMINALS && inputs[t].ready > 0
      modifies inputs[t], inputs[t].ring
      ensures Valid()
      ensures chunk == ReadLine(old(TerminalOf(t)).line, nbytes).1
      ensures TerminalOf(t) == Act(old(TerminalOf(t)), ReadBytes(nbytes)).value
      ensures forall u: Byte :: u < NUM_TERMINALS && u != t ==> TerminalOf(u) == old(TerminalOf(u))
    {
      ghost var before := TerminalOf(t);
      chunk := inputs[t].TerminalRead(nbytes);
      assert TerminalOf(t).screen == before.screen;
      assert (TerminalOf(t).line, chunk) == ReadLine(before.line, nbytes);
    }

    /** `terminal_write` */
    method TerminalWrite(t: Byte, bytes: seq<Byte>) returns (fault: bool)
      requires Valid() && t < NUM_TERMINALS
      modifies display`cursorX, display`cursorY, display`hardwareCursor, display.videoMemory[t]
      ensures Valid()
      ensures fault == Act(old(TerminalOf(t)), Write(bytes)).None?
      ensures !fault ==> TerminalOf(t) == Act(old(TerminalOf(t)), Write(bytes)).value
      ensures forall u: Byte :: u < NUM_TERMINALS && u != t ==> TerminalOf(u) == old(TerminalOf(u))
    {
      fault := display.PutBytes(t, bytes);
    }

    /** The three logical terminals and which of them is on the display. */
    ghost function Sys(): (s: System)
      requires Valid()
      reads display, display.video, display.outputs, inputs, rings, stores
      ensures ValidSystem(s)
    {
      System([TerminalOf(0), TerminalOf(1), TerminalOf(2)], display.active)
    }

    method HandleSwitch(to: Byte)
      requires Valid()
      modifies display, display.video, display.outputs
      ensures Valid() && Some(Sys()) == SystemStep(old(Sys()), Switch(to))
    {
      display.SwitchActiveTerminal(to);
    }

    method HandleAction(t: Byte, action: Action) returns (fault: bool)
      requires Valid() && t < NUM_TERMINALS
      modifies display`cursorX, display`cursorY, display`hardwareCursor, display.videoMemory[t]
      modifies inputs[t], inputs[t].ring, inputs[t].store
      ensures Valid()
      ensures fault == Act(old(TerminalOf(t)), action).None?
      ensures !fault ==> TerminalOf(t) == Act(old(TerminalOf(t)), action).value
      ensures forall u: Byte :: u < NUM_TERMINALS && u != t ==> TerminalOf(u) == old(TerminalOf(u))
    {
      fault := false;
      match action
      case Key(ch) => fault := KeyboardPutc(t, ch);
      case Redraw => fault := RedrawTerminal(t);
      case ResetTerminal => ResetTerminalState(t, NUM_TERMINALS);
      case ReadBytes(nbytes) =>
        if inputs[t].ready > 0 {
          var _ := TerminalRead(t, nbytes);
        }
      case Write(bytes) => fault := TerminalWrite(t, bytes);
    }

    method Handle(e: SystemEvent) returns (fault: bool)
      requires Valid() && Addressed(e)
      modifies display, display.video, display.outputs, inputs, rings, stores
      ensures Valid()
      ensures fault == SystemStep(old(Sys()), e).None?
      ensures !fault ==> Sys() == SystemStep(old(Sys()), e).value
    {
      match e
      case Switch(to) =>
        HandleSwitch(to);
        fault := false;
      case On(t, action) =>
        assert inputs[t].ring == rings[t] && inputs[t].store == stores[t];
        ghost var before := Sys();
        fault := HandleAction(t, action);
        assert [TerminalOf(0), TerminalOf(1), TerminalOf(2)] == before.terminals[t := TerminalOf(t)];
    }

    /** Every run of the concrete driver, whatever the order of keys, reads, writes, resets and
        switches, is the run of three separate terminals. */
    method Serve(events: seq<SystemEvent>) returns (fault: bool)
      requires Valid() && forall i :: 0 <= i < |events| ==> Addressed(events[i])
      modifies display, display.video, display.outputs, inputs, rings, stores
      ensures Valid()
      ensures fault == SystemRun(old(Sys()), events).None?
      ensures !fault ==> Sys() == SystemRun(old(Sys()), events).value
      ensures !fault ==> forall t: Byte :: t < NUM_TERMINALS ==>
                Perform(old(Sys()).terminals[t], Project(events, t)) == Some(TerminalOf(t))
    {
      ghost var start := Sys();
      for i := 0 to |events|
        invariant Valid()
        invariant SystemRun(start, events) == SystemRun(Sys(), events[i..])
      {
        fault := Handle(events[i]);
        assert events[i..][1..] == events[i + 1..];
        if fault {
          return;
        }
      }
      fault := false;
      forall t: Byte | t < NUM_TERMINALS
        ensures Perform(start.terminals[t], Project(events, t)) == Some(TerminalOf(t))
      {
        TerminalsAreIndependent(start, events, t);
      }
    }

    /** From boot, no interleaving of tab-free typing, reads, resets, redraws, switches and output
        without backspaces ever stores outside a screen, and each terminal ends as a fresh one that
        was given only its own actions. */
    method BootAndServe(events: seq<SystemEvent>) returns (fault: bool)
      requires WiredTo(0) && display.active == 0
      requires forall i :: 0 <= i < |events| ==> Addressed(events[i]) && (events[i].On? ==> Tame(events[i].action))
      modifies display, display.video, display.outputs, inputs, rings, stores
      ensures Valid() && !fault
      ensures forall t: Byte :: t < NUM_TERMINALS ==> Perform(FRESH, Project(events, t)) == Some(TerminalOf(t))
    {
      MultipleTerminalInit();
      BootedIsSafe();
      SystemSafety(BOOTED, events);
      fault := Serve(events);
    }
  }
}
