/** The shared display of tty/terminal.c: one video memory, three off-screen buffers, and a
    pointer per terminal that says which of them its output goes to. */
module DisplayDriver {
  import opened Common
  import opened Screens

  const VIDEO_WORDS := 2048   // the 4 KB copied on a switch
  const BUFFER_WORDS := 4096  // words in each `output_buffer[t]`

  /** `memmove` on one array: forward when the source is not below the destination, backward
      otherwise, so that overlapping ranges move as if through a copy. */
  method Memmove(a: array<Word>, dst: nat, src: nat, n: nat)
    requires dst + n <= a.Length && src + n <= a.Length
    modifies a
    ensures forall k :: 0 <= k < a.Length ==> a[k] == if dst <= k < dst + n then old(a[src + k - dst]) else old(a[k])
  {
    if src >= dst {
      for i := 0 to n
        invariant forall k :: 0 <= k < a.Length ==> a[k] == if dst <= k < dst + i then old(a[src + k - dst]) else old(a[k])
      {
        a[dst + i] := a[src + i];
      }
    } else {
      for i := n downto 0
        invariant forall k :: 0 <= k < a.Length ==> a[k] == if dst + i <= k < dst + n then old(a[src + k - dst]) else old(a[k])
      {
        a[dst + i] := a[src + i];
      }
    }
  }

  method MemsetWord(a: array<Word>, at: nat, w: Word, n: nat)
    requires at + n <= a.Length
    modifies a
    ensures forall k :: 0 <= k < a.Length ==> a[k] == if at <= k < at + n then w else old(a[k])
  {
    for i := 0 to n
      invariant forall k :: 0 <= k < a.Length ==> a[k] == if at <= k < at + i then w else old(a[k])
    {
      a[at + i] := w;
    }
  }

  method Memcpy(dst: array<Word>, src: array<Word>, n: nat)
    requires n <= dst.Length && n <= src.Length && dst != src
    modifies dst
    ensures forall k :: 0 <= k < n ==> dst[k] == src[k]
    ensures forall k :: n <= k < dst.Length ==> dst[k] == old(dst[k])
  {
    for i := 0 to n
      invariant forall k :: 0 <= k < i ==> dst[k] == src[k]
      invariant forall k :: i <= k < dst.Length ==> dst[k] == old(dst[k])
    {
      dst[i] := src[i];
    }
  }

  class Display {
    const video: array<Word>            // VIDEO_PHYS_ADDR
    const outputs: seq<array<Word>>     // output_buffer
    var videoMemory: seq<array<Word>>   // video_memory: where each terminal's output goes
    var cursorX: seq<Byte>
    var cursorY: seq<Byte>
    var active: Byte
    var hardwareCursor: nat             // the index in the CRTC cursor registers

    ghost predicate Buffers() {
      && video.Length == VIDEO_WORDS
      && |outputs| == NUM_TERMINALS
      && (forall t :: 0 <= t < NUM_TERMINALS ==> outputs[t].Length == BUFFER_WORDS && outputs[t] != video)
      && (forall t, u :: 0 <= t < u < NUM_TERMINALS ==> outputs[t] != outputs[u])
    }

    /** The output of the first `n` terminals goes where it should. */
    ghost predicate MappedTo(n: nat)
      reads this
    {
      && Buffers()
      && active < NUM_TERMINALS
      && |videoMemory| == |cursorX| == |cursorY| == NUM_TERMINALS
      && (forall t :: 0 <= t < n && t < NUM_TERMINALS ==> videoMemory[t] == if t == active then video else outputs[t])
      && (forall t :: 0 <= t < NUM_TERMINALS ==> cursorX[t] < COLUMNS && cursorY[t] < ROWS)
    }

    ghost predicate Mapped()
      reads this
    {
      MappedTo(NUM_TERMINALS)
    }

    /** The blinking cursor is the active terminal's. */
    ghost predicate CursorShown()
      reads this
    {
      active < |cursorX| && active < |cursorY| && hardwareCursor == cursorY[active] * COLUMNS + cursorX[active]
    }

    ghost predicate Valid()
      reads this
    {
      Mapped() && CursorShown()
    }

    /** Moving this terminal's cursor leaves the blinking one right. */
    ghost predicate Movable(t: Byte, n: nat)
      reads this
    {
      MappedTo(n) && t < n <= NUM_TERMINALS && (t == active || CursorShown())
    }

    /** A terminal's logical screen: video memory if it is active, its own buffer if not. */
    ghost function ScreenOf(t: Byte): (s: Screen)
      requires t < NUM_TERMINALS && MappedTo(t + 1)
      reads this, video, outputs
      ensures Screens.Valid(s)
    {
      Screen(videoMemory[t][..CELLS], cursorX[t], cursorY[t])
    }

    /** The display as the boot loader leaves it: terminal 0 active, the output pointers and the
        hardware cursor anywhere, and anything at all on the screens. */
    constructor (video: array<Word>, outputs: seq<array<Word>>, pointers: seq<array<Word>>, cursor: nat)
      requires video.Length == VIDEO_WORDS && |outputs| == |pointers| == NUM_TERMINALS
      requires forall t :: 0 <= t < NUM_TERMINALS ==> outputs[t].Length == BUFFER_WORDS && outputs[t] != video
      requires forall t, u :: 0 <= t < u < NUM_TERMINALS ==> outputs[t] != outputs[u]
      ensures MappedTo(0) && active == 0 && this.video == video && this.outputs == outputs
    {
      this.video := video;
      this.outputs := outputs;
      videoMemory := pointers;
      cursorX := [0, 0, 0];
      cursorY := [0, 0, 0];
      active := 0;
      hardwareCursor := cursor;
    }

    method SetHardwareCursor(t: Byte, x: Byte, y: Byte, ghost n: nat)
      requires Movable(t, n) && x < COLUMNS && y < ROWS
      modifies this`cursorX, this`cursorY, this`hardwareCursor
      ensures MappedTo(n) && CursorShown()
      ensures ScreenOf(t) == old(ScreenOf(t)).(x := x, y := y)
      ensures forall u: Byte :: u < n && u != t ==> ScreenOf(u) == old(ScreenOf(u))
    {
      cursorX := cursorX[t := x];
      cursorY := cursorY[t := y];
      if t == active {
        hardwareCursor := y * COLUMNS + x;
      }
    }

    /** Copies video memory into the active terminal's own buffer. */
    method SaveScreen()
      requires Mapped()
      modifies outputs[active]
      ensures outputs[active][..CELLS] == video[..CELLS]
    {
      Memcpy(outputs[active], video, VIDEO_WORDS);
    }

    /** Copies the active terminal's own buffer into video memory. */
    method LoadScreen()
      requires Mapped()
      modifies video
      ensures video[..CELLS] == outputs[active][..CELLS]
    {
      Memcpy(video, outputs[active], VIDEO_WORDS);
    }

    /** The 4 KB copies move the outgoing screen to its buffer and the incoming one to video
        memory; no terminal's logical screen changes. */
    method SwitchActiveTerminal(to: Byte)
      requires Valid()
      modifies this, video, outputs
      ensures Valid()
      ensures active == if to < NUM_TERMINALS then to else old(active)
      ensures forall t: Byte :: t < NUM_TERMINALS ==> ScreenOf(t) == old(ScreenOf(t))
    {
      if to < NUM_TERMINALS {
        SaveScreen();
        assert forall t: Byte :: t < NUM_TERMINALS ==> outputs[t][..CELLS] == old(ScreenOf(t)).cells;
        var from := active;
        active := to;
        videoMemory := videoMemory[from := OutputBuffer(from)];
        videoMemory := videoMemory[to := OutputBuffer(to)];
        LoadScreen();
        SetHardwareCursor(active, cursorX[active], cursorY[active], NUM_TERMINALS);
      }
    }

    /** `get_terminal_output_buffer` */
    function OutputBuffer(t: Byte): array<Word>
      requires t < |outputs|
      reads this
    {
      if t == active then video else outputs[t]
    }

    /** `video_memory[t] = get_terminal_output_buffer (t)` */
    method MapTerminal(t: Byte)
      requires t < NUM_TERMINALS && MappedTo(t)
      modifies this`videoMemory
      ensures MappedTo(t + 1)
      ensures forall u: Byte :: u < t ==> ScreenOf(u) == old(ScreenOf(u))
    {
      videoMemory := videoMemory[t := OutputBuffer(t)];
    }

    method VideoBufferPutc(t: Byte, x: Byte, y: Byte, ch: Byte)
      requires Mapped() && t < NUM_TERMINALS && x < COLUMNS && y < ROWS
      modifies videoMemory[t]
      ensures videoMemory[t][..CELLS] == old(videoMemory[t][..CELLS])[y * COLUMNS + x := Glyph(ch)]
    {
      videoMemory[t][y * COLUMNS + x] := Glyph(ch);
    }

    method ScrollScreen(t: Byte)
      requires Mapped() && t < NUM_TERMINALS
      modifies videoMemory[t]
      ensures videoMemory[t][..CELLS] == old(videoMemory[t][COLUMNS..CELLS]) + BlankCells(COLUMNS)
    {
      Memmove(videoMemory[t], 0, COLUMNS, COLUMNS * (ROWS - 1));
      assert videoMemory[t][..CELLS - COLUMNS] == old(videoMemory[t][COLUMNS..CELLS]);
      MemsetWord(videoMemory[t], CELLS - COLUMNS, BLANK, COLUMNS);
    }

    method ClearTerminal(t: Byte, ghost n: nat)
      requires Movable(t, n)
      modifies this`cursorX, this`cursorY, this`hardwareCursor, videoMemory[t]
      ensures MappedTo(n) && CursorShown() && ScreenOf(t) == CLEAR
      ensures forall u: Byte :: u < n && u != t ==> ScreenOf(u) == old(ScreenOf(u))
    {
      MemsetWord(videoMemory[t], 0, BLANK, COLUMNS * ROWS);
      SetHardwareCursor(t, 0, 0, n);
      assert videoMemory[t][..CELLS] == BlankCells(CELLS);
    }

    /** `putc_internal`.  A fault is a store outside the buffer; the call is not followed past it. */
    method PutcInternal(t: Byte, ch: Byte) returns (fault: bool)
      requires Valid() && t < NUM_TERMINALS
      modifies this`cursorX, this`cursorY, this`hardwareCursor, videoMemory[t]
      ensures Valid()
      ensures fault == WildWrite(old(ScreenOf(t)), ch)
      ensures ScreenOf(t) == if fault then old(ScreenOf(t)) else Put(old(ScreenOf(t)), ch)
      ensures forall u: Byte :: u < NUM_TERMINALS && u != t ==> ScreenOf(u) == old(ScreenOf(u))
    {
      ghost var s := ScreenOf(t);
      var x: int := cursorX[t];
      var y: int := cursorY[t];
      fault := false;
      if ch == BACKSPACE {
        if x == 0 {
          y := y - 1;
          x := COLUMNS;
        }
        x := x - 1;
        if y < 0 {
          return true;
        }
        VideoBufferPutc(t, x, y, SPACE);
      } else if ch == NEWLINE {
        y := y + 1;
        x := 0;
        if y >= ROWS {
          ScrollScreen(t);
          y := ROWS - 1;
        }
      } else if ch == TAB {
      } else {
        VideoBufferPutc(t, x, y, ch);
        x := x + 1;
        if x >= COLUMNS {
          y := y + 1;
          x := 0;
          if y >= ROWS {
            ScrollScreen(t);
            y := ROWS - 1;
          }
        }
      }
      assert Screen(videoMemory[t][..CELLS], x, y) == Put(s, ch);
      SetHardwareCursor(t, x, y, NUM_TERMINALS);
    }

    /** The output loops of `terminal_write` and of the redraw; stops at a fault. */
    method PutBytes(t: Byte, bytes: seq<Byte>) returns (fault: bool)
      requires Valid() && t < NUM_TERMINALS
      modifies this`cursorX, this`cursorY, this`hardwareCursor, videoMemory[t]
      ensures Valid()
      ensures fault == PutAll(old(ScreenOf(t)), bytes).None?
      ensures !fault ==> ScreenOf(t) == PutAll(old(ScreenOf(t)), bytes).value
      ensures forall u: Byte :: u < NUM_TERMINALS && u != t ==> ScreenOf(u) == old(ScreenOf(u))
    {
      ghost var start := ScreenOf(t);
      for i := 0 to |bytes|
        modifies this`cursorX, this`cursorY, this`hardwareCursor, videoMemory[t]
        invariant Valid()
        invariant PutAll(start, bytes[..i]) == Some(ScreenOf(t))
        invariant forall u: Byte :: u < NUM_TERMINALS && u != t ==> ScreenOf(u) == old(ScreenOf(u))
      {
        assert bytes[..i + 1] == bytes[..i] + [bytes[i]];
        PutAllSnoc(start, bytes[..i], bytes[i]);
        fault := PutcInternal(t, bytes[i]);
        if fault {
          assert bytes == bytes[..i + 1] + bytes[i + 1..];
          PutAllAppend(start, bytes[..i + 1], bytes[i + 1..]);
          return;
        }
      }
      assert bytes[..|bytes|] == bytes;
      fault := false;
    }
  }
}
