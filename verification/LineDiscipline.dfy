/** The per-terminal line discipline: what the keyboard handler puts into a terminal's input
    buffer, what `terminal_read` takes out, and the newline counter that wakes the reader.

    Each key press and the tail of each read run with interrupts off, so a history of a
    terminal is a sequence of such atomic steps in any order. */
module LineDiscipline {
  import opened Common
  import opened RingBuffer

  /** `input_buffer[t]` (its abstract contents) and `new_line_ready[t]`. */
  datatype Line = Line(buf: seq<Byte>, ready: Byte)

  const EMPTY_LINE := Line([], 0)

  /** Buffer effect of `keyboard_putc`. */
  function PressKey(s: Line, ch: Byte): Line {
    if ch == BACKSPACE then
      if |s.buf| == 0 || s.buf[|s.buf| - 1] == NEWLINE then s
      else s.(buf := s.buf[..|s.buf| - 1])
    else if ch == NEWLINE then
      if |s.buf| >= KEYBOARD_BUFFER_SIZE then s
      else Line(s.buf + [NEWLINE], (s.ready + 1) % 256)
    else if ch > 0 && |s.buf| < KEYBOARD_BUFFER_SIZE - 1 then s.(buf := s.buf + [ch])
    else s
  }

  /** How many bytes a read of `nbytes` takes: up to and including the first newline. */
  function ReadCount(buf: seq<Byte>, nbytes: int): (n: nat)
    ensures n <= |buf|
  {
    var maxLen := FirstIndexOf(buf, NEWLINE) + 1;
    Min(if maxLen < Unsigned32(nbytes) then maxLen else Unsigned32(nbytes), |buf|)
  }

  /** The part of `terminal_read` after the wait. */
  function ReadLine(s: Line, nbytes: int): (r: (Line, seq<Byte>))
    requires s.ready > 0
  {
    var n := ReadCount(s.buf, nbytes);
    (Line(s.buf[n..], s.ready - 1), s.buf[..n])
  }

  // ---------------------------------------------------------------------------
  // Reference: an unbounded line editor
  // ---------------------------------------------------------------------------

  predicate EndsLine(s: seq<Byte>) {
    s != [] && s[|s| - 1] == NEWLINE
  }

  /** One newline, at the end. */
  predicate CompleteLine(s: seq<Byte>) {
    EndsLine(s) && NEWLINE !in s[..|s| - 1]
  }

  /** Without its last byte, unless that is a committed newline. */
  function Erased(page: seq<Byte>): seq<Byte> {
    if page == [] || EndsLine(page) then page else page[..|page| - 1]
  }

  /** What a sequence of keystrokes leaves on an unbounded page: a backspace erases the last
      byte unless that byte is a committed newline, every other key is appended. */
  function Net(keys: seq<Byte>): seq<Byte> {
    if keys == [] then []
    else
      var page := Net(keys[..|keys| - 1]);
      var ch := keys[|keys| - 1];
      if ch == BACKSPACE then Erased(page) else page + [ch]
  }

  /** The completed lines of a page, in order. */
  function Lines(page: seq<Byte>): (lines: seq<seq<Byte>>)
    ensures forall i :: 0 <= i < |lines| ==> CompleteLine(lines[i])
    decreases |page|
  {
    var i := FirstIndexOf(page, NEWLINE);
    if i < 0 then []
    else
      assert page[..i + 1][..i] == page[..i];
      [page[..i + 1]] + Lines(page[i + 1..])
  }

  function Newlines(s: seq<Byte>): nat {
    multiset(s)[NEWLINE]
  }

  /** The cap the terminal shares between unread lines and the line being typed: one byte
      of the buffer is kept for Enter. */
  predicate Admitted(unread: int, ch: Byte) {
    || ch == BACKSPACE
    || (ch == NEWLINE && unread < KEYBOARD_BUFFER_SIZE)
    || (ch > 0 && unread < KEYBOARD_BUFFER_SIZE - 1)
  }

  // ---------------------------------------------------------------------------
  // Histories
  // ---------------------------------------------------------------------------

  datatype Event = Press(ch: Byte) | Read(nbytes: int) | Reset

  /** A terminal's line state together with what has happened since the last reset:
      the chunks its reads returned, the keys that passed the cap, and how many reads
      returned a chunk that does not end a line. */
  datatype History = History(line: Line, delivered: seq<seq<Byte>>, accepted: seq<Byte>, short: nat)

  const START := History(EMPTY_LINE, [], [], 0)

  function Step(h: History, e: Event): History {
    match e
    case Press(ch) =>
      h.(line := PressKey(h.line, ch),
         accepted := if Admitted(|Net(h.accepted)| - |Concat(h.delivered)|, ch) then h.accepted + [ch] else h.accepted)
    case Read(nbytes) =>
      if h.line.ready == 0 then h  // the reader is still waiting
      else
        var (line, chunk) := ReadLine(h.line, nbytes);
        h.(line := line,
           delivered := h.delivered + [chunk],
           short := if EndsLine(chunk) then h.short else h.short + 1)
    case Reset => START
  }

  function Run(h: History, events: seq<Event>): History
    decreases |events|
  {
    if events == [] then h else Run(Step(h, events[0]), events[1..])
  }

  /** Bytes delivered and bytes still buffered are together the editor's page. */
  ghost predicate Conserved(h: History) {
    && Concat(h.delivered) + h.line.buf == Net(h.accepted)
    && (NEWLINE !in h.line.buf ==> Concat(h.delivered) == [] || EndsLine(Concat(h.delivered)))
  }

  /** The wake-up counter lags the buffered newlines by exactly the short reads. */
  ghost predicate Counted(h: History) {
    Newlines(h.line.buf) == h.line.ready + h.short
  }

  /** A full buffer ends in a newline, and backspaces are never stored. */
  predicate WellFormed(buf: seq<Byte>) {
    && |buf| <= KEYBOARD_BUFFER_SIZE
    && (|buf| == KEYBOARD_BUFFER_SIZE ==> EndsLine(buf))
    && (forall i :: 0 <= i < |buf| ==> buf[i] != BACKSPACE && buf[i] != 0)
  }

  ghost predicate ShortReadsSeen(h: History) {
    h.short == 0 <==> forall i :: 0 <= i < |h.delivered| ==> CompleteLine(h.delivered[i])
  }

  /** A chunk without the newline it may end in. */
  function Stripped(chunk: seq<Byte>): seq<Byte> {
    if EndsLine(chunk) then chunk[..|chunk| - 1] else chunk
  }

  /** Every chunk holds no NUL and, but for a newline at its end, is part of one line of at most 127
      bytes. */
  predicate ChunksFit(delivered: seq<seq<Byte>>) {
    forall i :: 0 <= i < |delivered| ==>
      && 0 !in delivered[i] && |delivered[i]| <= KEYBOARD_BUFFER_SIZE
      && NEWLINE !in Stripped(delivered[i]) && |Stripped(delivered[i])| < KEYBOARD_BUFFER_SIZE
  }

  ghost predicate Inv(h: History) {
    && Conserved(h) && Counted(h) && WellFormed(h.line.buf)
    && ShortReadsSeen(h) && ChunksFit(h.delivered)
  }

  // ---------------------------------------------------------------------------
  // Every step keeps the invariant
  // ---------------------------------------------------------------------------

  lemma NewlinesBound(s: seq<Byte>)
    ensures Newlines(s) <= |s|
    ensures Newlines(s) > 0 <==> NEWLINE in s
  {
    assert NEWLINE in s <==> NEWLINE in multiset(s);
    assert multiset(s)[NEWLINE] <= |multiset(s)|;
  }

  lemma NewlinesSplit(s: seq<Byte>, n: nat)
    requires n <= |s|
    ensures Newlines(s) == Newlines(s[..n]) + Newlines(s[n..])
  {
    assert s == s[..n] + s[n..];
  }

  lemma NetSnoc(keys: seq<Byte>, ch: Byte)
    ensures Net(keys + [ch]) == if ch == BACKSPACE then Erased(Net(keys)) else Net(keys) + [ch]
  {
    assert (keys + [ch])[..|keys|] == keys;
  }

  lemma PressConserves(h: History, ch: Byte)
    requires Conserved(h) && WellFormed(h.line.buf)
    ensures Conserved(Step(h, Press(ch)))
  {
    var past, buf := Concat(h.delivered), h.line.buf;
    assert |Net(h.accepted)| - |past| == |buf|;
    if ch == BACKSPACE {
      EraseConserves(h);
    } else if Admitted(|buf|, ch) {
      NetSnoc(h.accepted, ch);
      AppendAssociates(past, buf, [ch]);
      AppendConserves(h, ch);
    }
  }

  lemma EraseConserves(h: History)
    requires Conserved(h)
    ensures Conserved(Step(h, Press(BACKSPACE)))
  {
    NetSnoc(h.accepted, BACKSPACE);
    EraseLast(Concat(h.delivered), h.line.buf);
    assert Step(h, Press(BACKSPACE)).line.buf == Erased(h.line.buf);
  }

  lemma AppendConserves(h: History, ch: Byte)
    requires Conserved(h) && ch != BACKSPACE && Admitted(|h.line.buf|, ch)
    requires Net(h.accepted + [ch]) == Net(h.accepted) + [ch]
    requires Concat(h.delivered) + (h.line.buf + [ch]) == (Concat(h.delivered) + h.line.buf) + [ch]
    ensures Conserved(Step(h, Press(ch)))
  {
    var h' := Step(h, Press(ch));
    assert h'.line.buf == h.line.buf + [ch];
    assert NEWLINE in h.line.buf ==> NEWLINE in h'.line.buf;
  }

  /** Erasing on the whole page is erasing in the buffer. */
  lemma EraseLast(past: seq<Byte>, buf: seq<Byte>)
    requires NEWLINE !in buf ==> past == [] || EndsLine(past)
    ensures Erased(past + buf) == past + Erased(buf)
    ensures NEWLINE !in Erased(buf) ==> NEWLINE !in buf
  {
    if |buf| == 0 {
      assert past + buf == past;
    } else if buf[|buf| - 1] != NEWLINE {
      var n := |buf| - 1;
      assert (past + buf)[..|past| + n] == past + buf[..n];
      assert buf == buf[..n] + [buf[n]];
    }
  }

  lemma NewlinesSnoc(s: seq<Byte>, b: Byte)
    ensures Newlines(s + [b]) == Newlines(s) + if b == NEWLINE then 1 else 0
  {
  }

  lemma PressCounts(line: Line, ch: Byte)
    requires line.ready <= Newlines(line.buf) && WellFormed(line.buf)
    ensures var after := PressKey(line, ch);
            Newlines(after.buf) - after.ready == Newlines(line.buf) - line.ready
  {
    var buf := line.buf;
    NewlinesBound(buf);
    if ch != BACKSPACE {
      NewlinesSnoc(buf, ch);
    } else if |buf| > 0 {
      var n := |buf| - 1;
      assert buf == buf[..n] + [buf[n]];
      NewlinesSnoc(buf[..n], buf[n]);
    }
  }

  lemma PressKeepsWellFormed(line: Line, ch: Byte)
    requires WellFormed(line.buf)
    ensures WellFormed(PressKey(line, ch).buf)
  {
  }

  /** Where a prefix that stops at or before the first newline cuts the buffer. */
  lemma CutAtLine(buf: seq<Byte>, n: nat)
    requires NEWLINE in buf && n <= FirstIndexOf(buf, NEWLINE)
    ensures NEWLINE !in buf[..n]
    ensures NEWLINE in buf[n..]
    ensures Newlines(buf[n..]) == Newlines(buf)
  {
    var i := FirstIndexOf(buf, NEWLINE);
    assert forall k :: 0 <= k < n ==> buf[..n][k] == buf[..i][k];
    assert buf[n..][i - n] == NEWLINE;
    NewlinesSplit(buf, n);
    NewlinesBound(buf[..n]);
  }

  lemma CutAfterLine(buf: seq<Byte>)
    requires NEWLINE in buf
    ensures var n := FirstIndexOf(buf, NEWLINE) + 1;
            && CompleteLine(buf[..n])
            && Newlines(buf[n..]) == Newlines(buf) - 1
  {
    var i := FirstIndexOf(buf, NEWLINE);
    assert buf[..i + 1][..i] == buf[..i];
    NewlinesSplit(buf, i + 1);
    NewlinesSplit(buf[..i + 1], i);
    NewlinesBound(buf[..i]);
    assert buf[..i + 1][i..] == [NEWLINE];
  }

  /** A read with a newline buffered takes a prefix of the first line, and all of it
      exactly when the chunk it returns ends a line. */
  lemma ReadTakesLinePrefix(buf: seq<Byte>, nbytes: int)
    requires NEWLINE in buf
    ensures var n := ReadCount(buf, nbytes);
            && n <= FirstIndexOf(buf, NEWLINE) + 1
            && (EndsLine(buf[..n]) <==> n == FirstIndexOf(buf, NEWLINE) + 1)
            && (EndsLine(buf[..n]) <==> CompleteLine(buf[..n]))
            && (!EndsLine(buf[..n]) ==> NEWLINE in buf[n..])
            && Newlines(buf[n..]) == Newlines(buf) - if EndsLine(buf[..n]) then 1 else 0
  {
    var n := ReadCount(buf, nbytes);
    if n <= FirstIndexOf(buf, NEWLINE) {
      CutAtLine(buf, n);
    } else {
      CutAfterLine(buf);
    }
  }

  lemma ReadConserves(h: History, nbytes: int)
    requires Conserved(h) && NEWLINE in h.line.buf && h.line.ready > 0
    ensures Conserved(Step(h, Read(nbytes)))
  {
    var n := ReadCount(h.line.buf, nbytes);
    ReadTakesLinePrefix(h.line.buf, nbytes);
    ConcatSnoc(h.delivered, h.line.buf[..n]);
    MoveConserves(Concat(h.delivered), h.line.buf, n);
  }

  /** Bytes that move from the buffer to the reader stay in order. */
  lemma MoveConserves(past: seq<Byte>, buf: seq<Byte>, n: nat)
    requires n <= |buf|
    ensures (past + buf[..n]) + buf[n..] == past + buf
    ensures EndsLine(buf[..n]) ==> EndsLine(past + buf[..n])
  {
    assert buf[..n] + buf[n..] == buf;
    AppendAssociates(past, buf[..n], buf[n..]);
  }

  lemma ReadKeepsShortReadsSeen(h: History, nbytes: int)
    requires ShortReadsSeen(h) && NEWLINE in h.line.buf && h.line.ready > 0
    ensures ShortReadsSeen(Step(h, Read(nbytes)))
  {
    ReadTakesLinePrefix(h.line.buf, nbytes);
    var chunk := h.line.buf[..ReadCount(h.line.buf, nbytes)];
    var d := h.delivered + [chunk];
    assert d[|h.delivered|] == chunk;
    assert forall i :: 0 <= i < |h.delivered| ==> d[i] == h.delivered[i];
  }

  /** Whatever is asked for, a read brings no NUL and at most 127 bytes of one line. */
  lemma ChunkFits(buf: seq<Byte>, nbytes: int)
    requires WellFormed(buf) && NEWLINE in buf
    ensures ChunksFit([buf[..ReadCount(buf, nbytes)]])
  {
    var n := ReadCount(buf, nbytes);
    ReadTakesLinePrefix(buf, nbytes);
    assert forall k :: 0 <= k < n ==> buf[..n][k] == buf[k];
    if n <= FirstIndexOf(buf, NEWLINE) {
      CutAtLine(buf, n);
    }
  }

  lemma ReadFits(h: History, nbytes: int)
    requires WellFormed(h.line.buf) && ChunksFit(h.delivered) && h.line.ready > 0 && NEWLINE in h.line.buf
    ensures ChunksFit(Step(h, Read(nbytes)).delivered)
    ensures WellFormed(Step(h, Read(nbytes)).line.buf)
  {
    var n := ReadCount(h.line.buf, nbytes);
    ChunkFits(h.line.buf, nbytes);
    assert forall k :: 0 <= k < |h.line.buf| - n ==> h.line.buf[n..][k] == h.line.buf[n + k];
  }

  lemma ReadKeepsInv(h: History, nbytes: int)
    requires Inv(h)
    ensures Inv(Step(h, Read(nbytes)))
  {
    if h.line.ready > 0 {
      NewlinesBound(h.line.buf);
      ReadConserves(h, nbytes);
      ReadKeepsShortReadsSeen(h, nbytes);
      ReadFits(h, nbytes);
      ReadTakesLinePrefix(h.line.buf, nbytes);
    }
  }

  lemma StepKeepsInv(h: History, e: Event)
    requires Inv(h)
    ensures Inv(Step(h, e))
  {
    match e
    case Press(ch) =>
      PressConserves(h, ch);
      PressCounts(h.line, ch);
      PressKeepsWellFormed(h.line, ch);
    case Read(nbytes) => ReadKeepsInv(h, nbytes);
    case Reset =>
  }

  lemma {:induction false} RunKeepsInv(h: History, events: seq<Event>)
    requires Inv(h)
    ensures Inv(Run(h, events))
    decreases |events|
  {
    if events != [] {
      StepKeepsInv(h, events[0]);
      RunKeepsInv(Step(h, events[0]), events[1..]);
    }
  }

  // ---------------------------------------------------------------------------
  // Main results
  // ---------------------------------------------------------------------------

  /** For every interleaving of keys, reads of any size and resets: what the reads returned,
      followed by what is still buffered, is exactly the editor's page; nothing is lost,
      repeated or reordered. */
  lemma DeliveryConserves(events: seq<Event>)
    ensures var h := Run(START, events);
            Concat(h.delivered) + h.line.buf == Net(h.accepted)
  {
    RunKeepsInv(START, events);
  }

  /** A read that gets through asking for less than the first buffered line. */
  predicate TooSmall(s: Line, e: Event) {
    e.Read? && s.ready > 0 && Unsigned32(e.nbytes) <= FirstIndexOf(s.buf, NEWLINE)
  }

  /** What an event does to the line state alone. */
  function LineStep(s: Line, e: Event): Line {
    match e
    case Press(ch) => PressKey(s, ch)
    case Read(nbytes) => if s.ready == 0 then s else ReadLine(s, nbytes).0
    case Reset => EMPTY_LINE
  }

  function CountSmall(s: Line, e: Event, count: nat): nat {
    if e.Reset? then 0 else if TooSmall(s, e) then count + 1 else count
  }

  /** The reads since the last reset that were too small, with `count` of them before.  It looks
      only at what each read asks for and at the line it finds, never at what it returns. */
  function SmallReads(s: Line, events: seq<Event>, count: nat): nat
    decreases |events|
  {
    if events == [] then count
    else SmallReads(LineStep(s, events[0]), events[1..], CountSmall(s, events[0], count))
  }

  /** A read is short if and only if it was too small. */
  lemma ReadIsShortIff(h: History, nbytes: int)
    requires Inv(h) && h.line.ready > 0
    ensures Step(h, Read(nbytes)).short == (if TooSmall(h.line, Read(nbytes)) then h.short + 1 else h.short)
  {
    NewlinesBound(h.line.buf);
    ReadTakesLinePrefix(h.line.buf, nbytes);
  }

  lemma StepCountsSmall(h: History, e: Event)
    requires Inv(h)
    ensures Step(h, e).line == LineStep(h.line, e)
    ensures Step(h, e).short == CountSmall(h.line, e, h.short)
  {
    if e.Read? && h.line.ready > 0 {
      ReadIsShortIff(h, e.nbytes);
    }
  }

  lemma {:induction false} ShortIsSmallReads(h: History, events: seq<Event>)
    requires Inv(h)
    ensures Run(h, events).short == SmallReads(h.line, events, h.short)
    decreases |events|
  {
    if events != [] {
      StepCountsSmall(h, events[0]);
      StepKeepsInv(h, events[0]);
      ShortIsSmallReads(Step(h, events[0]), events[1..]);
    }
  }

  /** The wake-up counter equals the buffered newlines less the reads that were too small.  It
      therefore never exceeds them, never wraps, and a woken reader always finds a newline. */
  lemma WakeupCounter(events: seq<Event>)
    ensures var line := Run(START, events).line;
            && Newlines(line.buf) == line.ready + SmallReads(EMPTY_LINE, events, 0)
            && line.ready <= KEYBOARD_BUFFER_SIZE
            && (line.ready > 0 ==> FirstIndexOf(line.buf, NEWLINE) >= 0)
  {
    RunKeepsInv(START, events);
    ShortIsSmallReads(START, events);
    NewlinesBound(Run(START, events).line.buf);
  }

  lemma LinesOfCompleteLine(first: seq<Byte>, rest: seq<Byte>)
    requires CompleteLine(first)
    ensures Lines(first + rest) == [first] + Lines(rest)
  {
    var page := first + rest;
    var n := |first|;
    assert page[..n - 1] == first[..n - 1];
    FirstIndexOfIs(page, NEWLINE, n - 1);
    assert page[..n] == first && page[n..] == rest;
  }

  /** Complete lines followed by more bytes split back into those lines. */
  lemma {:induction false} LinesOfConcat(parts: seq<seq<Byte>>, rest: seq<Byte>)
    requires forall i :: 0 <= i < |parts| ==> CompleteLine(parts[i])
    ensures Lines(Concat(parts) + rest) == parts + Lines(rest)
  {
    if parts == [] {
      assert Concat(parts) + rest == rest;
    } else {
      var tail := Concat(parts[1..]) + rest;
      assert Concat(parts) + rest == parts[0] + tail;
      LinesOfCompleteLine(parts[0], tail);
      LinesOfConcat(parts[1..], rest);
      HeadThenTail(parts, Lines(rest));
    }
  }

  /** The reads return exactly the editor's lines, in order, if and only if none of them asked for
      less than the line it found; and then what is left are the lines still to be delivered. */
  lemma LinesDelivered(events: seq<Event>)
    ensures var h := Run(START, events);
            var lines := Lines(Net(h.accepted));
            var small := SmallReads(EMPTY_LINE, events, 0);
            && (small == 0 <==> h.delivered <= lines)
            && (small == 0 ==> lines == h.delivered + Lines(h.line.buf))
  {
    var h := Run(START, events);
    RunKeepsInv(START, events);
    ShortIsSmallReads(START, events);
    if h.short == 0 {
      LinesOfConcat(h.delivered, h.line.buf);
    } else {
      var lines := Lines(Net(h.accepted));
      var i :| 0 <= i < |h.delivered| && !CompleteLine(h.delivered[i]);
      assert i < |lines| ==> CompleteLine(lines[i]);
    }
  }

  predicate WholeLineReads(events: seq<Event>) {
    forall i :: 0 <= i < |events| && events[i].Read? ==> Unsigned32(events[i].nbytes) >= KEYBOARD_BUFFER_SIZE
  }

  /** Reads of at least 128 bytes are never short. */
  lemma {:induction false} LargeReadsAreNeverShort(h: History, events: seq<Event>)
    requires Inv(h) && h.short == 0 && WholeLineReads(events)
    ensures Run(h, events).short == 0
    decreases |events|
  {
    if events != [] {
      var e := events[0];
      if e.Read? && h.line.ready > 0 {
        NewlinesBound(h.line.buf);
        ReadTakesLinePrefix(h.line.buf, e.nbytes);
      }
      StepKeepsInv(h, e);
      assert forall i :: 0 <= i < |events[1..]| ==> events[1..][i] == events[i + 1];
      LargeReadsAreNeverShort(Step(h, e), events[1..]);
    }
  }

  /** The line discipline refines the line editor: under every interleaving of keys, resets
      and reads of at least 128 bytes, the k-th read returns the k-th line of the page, which
      is at most 128 bytes with its newline. */
  lemma LineDisciplineRefinesEditor(events: seq<Event>)
    requires WholeLineReads(events)
    ensures var h := Run(START, events);
            && Lines(Net(h.accepted)) == h.delivered + Lines(h.line.buf)
            && ChunksFit(h.delivered)
            && h.line.ready == Newlines(h.line.buf)
            && (|h.line.buf| == KEYBOARD_BUFFER_SIZE ==> h.line.ready > 0)
  {
    LargeReadsAreNeverShort(START, events);
    ShortIsSmallReads(START, events);
    LinesDelivered(events);
    RunKeepsInv(START, events);
    NewlinesBound(Run(START, events).line.buf);
  }

  // ---------------------------------------------------------------------------
  // Short reads can block a reader for ever
  // ---------------------------------------------------------------------------

  /** Once the buffer is full and the counter is zero, no key and no read changes anything:
      only a reset frees the reader. */
  lemma {:induction false} FullAndUncountedIsDeadlock(h: History, events: seq<Event>)
    requires WellFormed(h.line.buf) && |h.line.buf| == KEYBOARD_BUFFER_SIZE && h.line.ready == 0
    requires Reset !in events
    ensures Run(h, events).line == h.line && Run(h, events).delivered == h.delivered
    decreases |events|
  {
    if events != [] {
      assert events[0] in events;
      FullAndUncountedIsDeadlock(Step(h, events[0]), events[1..]);
    }
  }

  lemma {:induction false} LinesAreNewlines(s: seq<Byte>)
    ensures |Lines(s)| == Newlines(s)
    decreases |s|
  {
    NewlinesBound(s);
    if NEWLINE in s {
      CutAfterLine(s);
      LinesAreNewlines(s[FirstIndexOf(s, NEWLINE) + 1..]);
    }
  }

  lemma {:induction false} ShortNeverDrops(h: History, events: seq<Event>)
    requires Reset !in events
    ensures Run(h, events).short >= h.short
    decreases |events|
  {
    if events != [] {
      assert events[0] in events;
      ShortNeverDrops(Step(h, events[0]), events[1..]);
    }
  }

  /** A read that is too small costs a line: from then on, until a reset, there is always one more
      complete line in the buffer than any reader will be woken for. */
  lemma SmallReadCostsALine(h: History, e: Event, events: seq<Event>)
    requires Inv(h) && TooSmall(h.line, e) && Reset !in events
    ensures var line := Run(Step(h, e), events).line;
            |Lines(line.buf)| >= line.ready + h.short + 1
  {
    ReadIsShortIff(h, e.nbytes);
    StepKeepsInv(h, e);
    RunKeepsInv(Step(h, e), events);
    ShortNeverDrops(Step(h, e), events);
    LinesAreNewlines(Run(Step(h, e), events).line.buf);
  }

  /** Nothing that can be typed or read ever delivers another byte or wakes another reader. */
  ghost predicate Stuck(h: History) {
    forall events: seq<Event> :: Reset !in events ==> Run(h, events).delivered == h.delivered
  }

  lemma ReadDelivers(h: History)
    requires h.line.ready > 0
    ensures !Stuck(h)
  {
    assert [Read(0)][1..] == [];
    assert Run(h, [Read(0)]) == Run(Step(h, Read(0)), []);
    assert |Run(h, [Read(0)]).delivered| == |h.delivered| + 1;
  }

  lemma EnterThenReadDelivers(h: History)
    requires h.line.ready == 0 && |h.line.buf| < KEYBOARD_BUFFER_SIZE
    ensures !Stuck(h)
  {
    var h1 := Step(h, Press(NEWLINE));
    assert [Press(NEWLINE), Read(0)][1..] == [Read(0)];
    assert Run(h1, [Read(0)]) == Run(Step(h1, Read(0)), []);
    assert |Run(h, [Press(NEWLINE), Read(0)]).delivered| == |h.delivered| + 1;
  }

  /** In every reachable state: the terminal is stuck until a reset if and only if its buffer is
      full and as many reads since the last reset were too small as there are lines in it. */
  lemma StuckIff(events: seq<Event>)
    ensures var h := Run(START, events);
            Stuck(h) <==>
              |h.line.buf| == KEYBOARD_BUFFER_SIZE && SmallReads(EMPTY_LINE, events, 0) == |Lines(h.line.buf)|
  {
    var h := Run(START, events);
    RunKeepsInv(START, events);
    WakeupCounter(events);
    LinesAreNewlines(h.line.buf);
    if h.line.ready > 0 {
      ReadDelivers(h);
    } else if |h.line.buf| < KEYBOARD_BUFFER_SIZE {
      EnterThenReadDelivers(h);
    } else {
      forall more: seq<Event> | Reset !in more
        ensures Run(h, more).delivered == h.delivered
      {
        FullAndUncountedIsDeadlock(h, more);
      }
    }
  }

  lemma {:induction false} TypingFills(h: History, n: nat)
    requires |h.line.buf| == |Net(h.accepted)| && h.delivered == []
    requires |h.line.buf| + n < KEYBOARD_BUFFER_SIZE
    ensures Run(h, seq(n, _ => Press(97))).line == Line(h.line.buf + seq(n, _ => 97), h.line.ready)
    ensures Run(h, seq(n, _ => Press(97))).short == h.short
    decreases n
  {
    if n > 0 {
      var all := seq(n, _ => Press(97));
      var h' := Step(h, all[0]);
      NetSnoc(h.accepted, 97);
      assert all[1..] == seq(n - 1, _ => Press(97));
      TypingFills(h', n - 1);
      assert h'.line.buf + seq(n - 1, _ => 97) == h.line.buf + seq(n, _ => 97);
    } else {
      assert h.line.buf + seq(n, _ => 97) == h.line.buf;
    }
  }

  lemma {:induction false} RunAppend(h: History, first: seq<Event>, second: seq<Event>)
    ensures Run(h, first + second) == Run(Run(h, first), second)
    decreases |first|
  {
    if first == [] {
      assert first + second == second;
    } else {
      assert (first + second)[1..] == first[1..] + second;
      RunAppend(Step(h, first[0]), first[1..], second);
    }
  }

  /** A stuck terminal is reachable: 127 letters, Enter, and one read of zero bytes. */
  lemma ZeroByteReadDeadlocks()
    ensures var events := seq(127, _ => Press(97)) + [Press(NEWLINE), Read(0)];
            Stuck(Run(START, events))
  {
    var typing := seq(127, _ => Press(97));
    var events := typing + [Press(NEWLINE), Read(0)];
    TypingFills(START, 127);
    RunAppend(START, typing, [Press(NEWLINE), Read(0)]);
    EnterThenZeroByteRead(Run(START, typing));
    WakeupCounter(events);
    LinesAreNewlines(Run(START, events).line.buf);
    StuckIff(events);
  }

  lemma EnterThenZeroByteRead(h: History)
    requires |h.line.buf| == 127 && h.line.ready == 0
    ensures var h' := Run(h, [Press(NEWLINE), Read(0)]);
            h'.line == Line(h.line.buf + [NEWLINE], 0)
  {
    var h1 := Step(h, Press(NEWLINE));
    assert [Press(NEWLINE), Read(0)][1..] == [Read(0)];
    assert Run(h1, [Read(0)]) == Run(Step(h1, Read(0)), []);
    assert ReadCount(h1.line.buf, 0) == 0;
  }
}
