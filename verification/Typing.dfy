/** What the user sees while typing: each key's mark on the screen, and how the screen compares with
    the one Ctrl+L would redraw from the buffer. */
module Typing {
  import opened Common
  import opened LineDiscipline
  import opened Screens
  import opened TerminalModel

  // ---------------------------------------------------------------------------
  // One key
  // ---------------------------------------------------------------------------

  /** A printable key. */
  predicate Printable(ch: Byte) {
    ch != 0 && ch != BACKSPACE && ch != TAB && ch != NEWLINE
  }

  /** A character that is taken shows itself. */
  lemma PrintableShowsItself(t: Terminal, ch: Byte)
    requires Valid(t.screen) && Printable(ch) && |t.line.buf| < KEYBOARD_BUFFER_SIZE - 1
    ensures Act(t, Key(ch)) == Some(Terminal(Line(t.line.buf + [ch], t.line.ready), Put(t.screen, ch)))
  {
    PutAllOne(t.screen, ch);
  }

  lemma EnterStartsRow(t: Terminal)
    requires Valid(t.screen) && |t.line.buf| < KEYBOARD_BUFFER_SIZE
    ensures Act(t, Key(NEWLINE)) == Some(Terminal(Line(t.line.buf + [NEWLINE], (t.line.ready + 1) % 256), Put(t.screen, NEWLINE)))
  {
    PutAllOne(t.screen, NEWLINE);
  }

  /** Erasing a character that is not a tab takes one character off the screen. */
  lemma EraseTakesOneBack(t: Terminal, buf: seq<Byte>, last: Byte)
    requires Valid(t.screen) && t.line.buf == buf + [last] && last != NEWLINE && last != TAB
    requires !WildWrite(t.screen, BACKSPACE)
    ensures Act(t, Key(BACKSPACE)) == Some(Terminal(Line(buf, t.line.ready), Put(t.screen, BACKSPACE)))
  {
    PutAllOne(t.screen, BACKSPACE);
    assert t.line.buf[..|buf|] == buf;
  }

  /** A key that is refused leaves everything alone. */
  predicate Refused(line: Line, ch: Byte) {
    || ch == 0
    || (ch == BACKSPACE && (line.buf == [] || EndsLine(line.buf)))
    || (ch == NEWLINE && |line.buf| >= KEYBOARD_BUFFER_SIZE)
    || (ch != BACKSPACE && ch != NEWLINE && |line.buf| >= KEYBOARD_BUFFER_SIZE - 1)
  }

  lemma RefusedKeyChangesNothing(t: Terminal, ch: Byte)
    requires Valid(t.screen) && Refused(t.line, ch)
    ensures Act(t, Key(ch)) == Some(t)
  {
    PutAllOne(t.screen, ch);
  }

  // ---------------------------------------------------------------------------
  // Text on paper
  // ---------------------------------------------------------------------------

  /** Where on the endless paper the text after `text` goes. */
  function PosAfter(text: seq<Byte>): nat {
    if text == [] then 0
    else
      var pos := PosAfter(text[..|text| - 1]);
      if text[|text| - 1] == NEWLINE then pos - pos % COLUMNS + COLUMNS else pos + 1
  }

  lemma PosAfterSnoc(text: seq<Byte>, ch: Byte)
    ensures PosAfter(text + [ch]) == var pos := PosAfter(text); if ch == NEWLINE then pos - pos % COLUMNS + COLUMNS else pos + 1
  {
    InitOfSnoc(text, ch);
  }

  /** How many rows of paper that takes; 25 are there from the start. */
  function RowsOf(text: seq<Byte>): nat {
    var rows := PosAfter(text) / COLUMNS + 1;
    if rows < ROWS then ROWS else rows
  }

  const NEW_PAPER := Paper(BlankCells(CELLS), 0)

  /** Text without backspaces and tabs. */
  predicate Plain(text: seq<Byte>) {
    BACKSPACE !in text && TAB !in text
  }

  /** A cell that holds a character, white on black: the character is the low byte of the word, and
      the high byte is 15. */
  predicate Holds(cell: Word, ch: Byte) {
    cell % 256 == ch && cell / 256 == 15
  }

  lemma GlyphHolds(ch: Byte)
    ensures Holds(Glyph(ch), ch) && Holds(BLANK, SPACE) && Glyph(SPACE) == BLANK
  {
  }

  /** The character at each place of the text stands where it should, white on black, and what comes
      after the text is blank. */
  ghost predicate Shows(p: Paper, text: seq<Byte>) {
    && p.pos == PosAfter(text) && |p.cells| == COLUMNS * RowsOf(text)
    && (forall i :: 0 <= i < |text| && text[i] != NEWLINE ==>
          PosAfter(text[..i]) < p.pos && Holds(p.cells[PosAfter(text[..i])], text[i]))
    && (forall k :: p.pos <= k < |p.cells| ==> p.cells[k] == BLANK)
  }

  lemma TypeShowsRoom(p: Paper, text: seq<Byte>, ch: Byte)
    requires ValidPaper(p) && Shows(p, text) && ch != BACKSPACE && ch != TAB
    ensures var q := Type(p, ch);
            && q.pos == PosAfter(text + [ch]) > p.pos && |q.cells| == COLUMNS * RowsOf(text + [ch])
            && (forall k :: q.pos <= k < |q.cells| ==> q.cells[k] == BLANK)
            && (forall k :: 0 <= k < |p.cells| && k != p.pos ==> q.cells[k] == p.cells[k])
            && (ch != NEWLINE ==> q.cells[p.pos] == Glyph(ch))
  {
    PosAfterSnoc(text, ch);
  }

  lemma TypeShows(p: Paper, text: seq<Byte>, ch: Byte)
    requires ValidPaper(p) && Shows(p, text) && ch != BACKSPACE && ch != TAB
    ensures Shows(Type(p, ch), text + [ch])
  {
    var q, longer := Type(p, ch), text + [ch];
    PosAfterSnoc(text, ch);
    GlyphHolds(ch);
    TypeShowsRoom(p, text, ch);
    forall i | 0 <= i < |longer| && longer[i] != NEWLINE
      ensures PosAfter(longer[..i]) < q.pos && Holds(q.cells[PosAfter(longer[..i])], longer[i])
    {
      assert longer[..i] == text[..i];
      assert i == |text| ==> text[..i] == text;
    }
  }

  lemma TypeAllSnoc(p: Paper, bytes: seq<Byte>, ch: Byte)
    requires ValidPaper(p) && TypeAll(p, bytes).Some? && ch != BACKSPACE
    ensures TypeAll(p, bytes + [ch]) == Some(Type(TypeAll(p, bytes).value, ch))
  {
    InitOfSnoc(bytes, ch);
  }

  /** Text typed on new paper is there to be read, however long it is. */
  lemma {:induction false} TypedTextShows(text: seq<Byte>)
    requires Plain(text)
    ensures TypeAll(NEW_PAPER, text).Some? && Shows(TypeAll(NEW_PAPER, text).value, text)
  {
    if text != [] {
      var n := |text| - 1;
      TypedTextShows(text[..n]);
      assert text[n] in text && text == text[..n] + [text[n]];
      TypeAllSnoc(NEW_PAPER, text[..n], text[n]);
      TypeShows(TypeAll(NEW_PAPER, text[..n]).value, text[..n], text[n]);
    }
  }

  /** So what Ctrl+L draws is the last 25 rows of the buffered text. */
  lemma RedrawShowsBuffer(text: seq<Byte>)
    requires Plain(text)
    ensures TypeAll(NEW_PAPER, text).Some? && Shows(TypeAll(NEW_PAPER, text).value, text)
    ensures PutAll(CLEAR, text) == Some(View(TypeAll(NEW_PAPER, text).value))
  {
    TypedTextShows(text);
    ScreenShowsPaper(NEW_PAPER, text);
    assert View(NEW_PAPER) == CLEAR;
  }

  // ---------------------------------------------------------------------------
  // Typing and erasing
  // ---------------------------------------------------------------------------

  /** The paper of a terminal on which characters have also been erased: that of the text left, with
      perhaps more blank rows fed. */
  ghost predicate Extends(p: Paper, q: Paper) {
    && p.pos == q.pos && |q.cells| <= |p.cells|
    && p.cells[..|q.cells|] == q.cells
    && forall k :: |q.cells| <= k < |p.cells| ==> p.cells[k] == BLANK
  }

  lemma TypeExtends(p: Paper, q: Paper, ch: Byte)
    requires ValidPaper(p) && ValidPaper(q) && Extends(p, q) && ch != BACKSPACE && ch != TAB
    ensures Extends(Type(p, ch), Type(q, ch))
    ensures |Type(p, ch).cells| == if |p.cells| >= |Type(q, ch).cells| then |p.cells| else |Type(q, ch).cells|
  {
    var p', q' := Type(p, ch), Type(q, ch);
    forall k | 0 <= k < |q'.cells|
      ensures p'.cells[k] == q'.cells[k]
    {
      if k < |q.cells| { assert p.cells[..|q.cells|][k] == p.cells[k]; }
    }
  }

  /** Erasing the character typed last gives back the paper before it, but for the rows fed. */
  lemma EraseExtends(p: Paper, q: Paper, text: seq<Byte>, ch: Byte)
    requires ValidPaper(p) && ValidPaper(q) && Shows(q, text) && Printable(ch) && Extends(p, Type(q, ch))
    ensures Extends(Type(p, BACKSPACE), q) && |Type(p, BACKSPACE).cells| == |p.cells|
  {
    var p', q' := Type(p, BACKSPACE), Type(q, ch);
    forall k | 0 <= k < |q.cells|
      ensures p'.cells[k] == q.cells[k]
    {
      assert p.cells[..|q'.cells|][k] == p.cells[k];
    }
    forall k | |q.cells| <= k < |p'.cells|
      ensures p'.cells[k] == BLANK
    {
      if k < |q'.cells| { assert p.cells[..|q'.cells|][k] == p.cells[k]; }
    }
  }

  /** The line state after some keys on a fresh terminal. */
  function LineAfter(keys: seq<Byte>): Line {
    if keys == [] then EMPTY_LINE else PressKey(LineAfter(keys[..|keys| - 1]), keys[|keys| - 1])
  }

  /** The most rows the text being typed has taken at any time. */
  function MostRows(keys: seq<Byte>): nat {
    if keys == [] then ROWS
    else
      var most, now := MostRows(keys[..|keys| - 1]), RowsOf(LineAfter(keys).buf);
      if most < now then now else most
  }

  function KeyActions(keys: seq<Byte>): seq<Action> {
    seq(|keys|, i requires 0 <= i < |keys| => Key(keys[i]))
  }

  lemma {:induction false} PerformSnoc(t: Terminal, actions: seq<Action>, a: Action)
    requires Valid(t.screen) && Perform(t, actions).Some?
    ensures Perform(t, actions + [a]) == Act(Perform(t, actions).value, a)
    decreases |actions|
  {
    if actions == [] {
      assert actions + [a] == [a] && [a][1..] == [];
      match Act(t, a) { case None => case Some(t') => assert Perform(t', []) == Some(t'); }
    } else {
      assert (actions + [a])[1..] == actions[1..] + [a];
      PerformSnoc(Act(t, actions[0]).value, actions[1..], a);
    }
  }

  /** After keys without tabs: the screen is the view of a paper that shows the buffer, with as many
      rows as the text ever took. */
  ghost predicate Tracks(t: Terminal, p: Paper, rows: nat) {
    && ValidPaper(p) && View(p) == t.screen && |p.cells| == COLUMNS * rows
    && WellFormed(t.line.buf) && Plain(t.line.buf)
    && TypeAll(NEW_PAPER, t.line.buf).Some? && Extends(p, TypeAll(NEW_PAPER, t.line.buf).value)
    && rows >= RowsOf(t.line.buf)
  }

  function Later(rows: nat, text: seq<Byte>): nat {
    if rows < RowsOf(text) then RowsOf(text) else rows
  }

  lemma TypedKeyTracks(t: Terminal, p: Paper, rows: nat, ch: Byte) returns (p': Paper)
    requires Valid(t.screen) && Tracks(t, p, rows) && ch != TAB && ch != BACKSPACE && !Refused(t.line, ch)
    ensures Act(t, Key(ch)).Some?
    ensures var t' := Act(t, Key(ch)).value; Tracks(t', p', Later(rows, t'.line.buf))
  {
    var text := t.line.buf;
    if ch == NEWLINE { EnterStartsRow(t); } else { PrintableShowsItself(t, ch); }
    PressKeepsWellFormed(t.line, ch);
    p' := Type(p, ch);
    TypedTextShows(text);
    TypedTextShows(text + [ch]);
    TypeAllSnoc(NEW_PAPER, text, ch);
    PutIsType(p, ch);
    TypeExtends(p, TypeAll(NEW_PAPER, text).value, ch);
  }

  lemma ErasedKeyTracks(t: Terminal, p: Paper, rows: nat, text: seq<Byte>, last: Byte) returns (p': Paper)
    requires Valid(t.screen) && Tracks(t, p, rows) && t.line.buf == text + [last] && last != NEWLINE
    requires !WildWrite(t.screen, BACKSPACE)
    ensures Act(t, Key(BACKSPACE)) == Some(Terminal(Line(text, t.line.ready), Put(t.screen, BACKSPACE)))
    ensures Tracks(Act(t, Key(BACKSPACE)).value, p', Later(rows, text))
  {
    assert t.line.buf[|text|] == last && last in t.line.buf;
    PlainPrefix(t.line.buf, text, last);
    EraseTakesOneBack(t, text, last);
    p' := Type(p, BACKSPACE);
    TypedTextShows(text);
    TypeAllSnoc(NEW_PAPER, text, last);
    PosAfterSnoc(text, last);
    PutIsType(p, BACKSPACE);
    EraseExtends(p, TypeAll(NEW_PAPER, text).value, text, last);
  }

  lemma PlainPrefix(buf: seq<Byte>, text: seq<Byte>, last: Byte)
    requires buf == text + [last] && Plain(buf) && WellFormed(buf) && last != NEWLINE
    ensures Plain(text) && WellFormed(text) && Printable(last)
  {
    assert forall i :: 0 <= i < |text| ==> text[i] == buf[i];
    assert buf[|text|] == last && last in buf;
  }

  /** Any key but Tab, on a terminal that is safe. */
  lemma KeyTracks(t: Terminal, p: Paper, rows: nat, ch: Byte) returns (p': Paper)
    requires Safe(t) && Tracks(t, p, rows) && ch != TAB
    ensures Act(t, Key(ch)).Some?
    ensures var t' := Act(t, Key(ch)).value; Tracks(t', p', Later(rows, t'.line.buf))
  {
    KeyIsSafe(t, ch);
    if Refused(t.line, ch) {
      RefusedKeyChangesNothing(t, ch);
      p' := p;
    } else if ch == BACKSPACE {
      var n := |t.line.buf| - 1;
      assert t.line.buf == t.line.buf[..n] + [t.line.buf[n]];
      p' := ErasedKeyTracks(t, p, rows, t.line.buf[..n], t.line.buf[n]);
    } else {
      p' := TypedKeyTracks(t, p, rows, ch);
    }
  }

  lemma LineAfterSnoc(keys: seq<Byte>, ch: Byte)
    ensures LineAfter(keys + [ch]) == PressKey(LineAfter(keys), ch)
  {
    InitOfSnoc(keys, ch);
  }

  lemma MostRowsSnoc(keys: seq<Byte>, ch: Byte)
    ensures MostRows(keys + [ch]) == Later(MostRows(keys), LineAfter(keys + [ch]).buf)
  {
    InitOfSnoc(keys, ch);
  }

  lemma KeyActionsSnoc(keys: seq<Byte>, ch: Byte)
    ensures KeyActions(keys + [ch]) == KeyActions(keys) + [Key(ch)]
  {
  }

  lemma {:induction false} KeysTrack(keys: seq<Byte>) returns (t: Terminal, p: Paper)
    requires TAB !in keys
    ensures Perform(FRESH, KeyActions(keys)) == Some(t) && Safe(t) && t.line == LineAfter(keys)
    ensures Tracks(t, p, MostRows(keys))
    decreases |keys|
  {
    if keys == [] {
      t, p := FRESH, NEW_PAPER;
      TypedTextShows([]);
    } else {
      var init, ch := keys[..|keys| - 1], keys[|keys| - 1];
      assert ch in keys;
      t, p := KeysTrack(init);
      InitAndLast(keys);
      LineAfterSnoc(init, ch);
      MostRowsSnoc(init, ch);
      KeyActionsSnoc(init, ch);
      PerformSnoc(FRESH, KeyActions(init), Key(ch));
      KeyIsSafe(t, ch);
      p := KeyTracks(t, p, MostRows(init), ch);
      t := Act(t, Key(ch)).value;
    }
  }

  /** Typing and erasing on a fresh terminal, without tabs, leaves exactly the screen that Ctrl+L would
      redraw from the buffer, if and only if the text left takes as many rows as it ever did: a row
      scrolled away by a character that was erased again does not come back. */
  lemma ScreenIsRedrawnIff(keys: seq<Byte>)
    requires TAB !in keys
    ensures var t := Perform(FRESH, KeyActions(keys));
            && t.Some? && t.value.line == LineAfter(keys)
            && (t == Act(t.value, Redraw) <==> MostRows(keys) == RowsOf(LineAfter(keys).buf))
  {
    var t, p := KeysTrack(keys);
    RedrawShowsBuffer(t.line.buf);
    var q := TypeAll(NEW_PAPER, t.line.buf).value;
    if MostRows(keys) == RowsOf(t.line.buf) {
      assert p.cells == q.cells;
    } else {
      assert Pos(View(p)) != Pos(View(q));
    }
  }

  // ---------------------------------------------------------------------------
  // A screen that is not
  // ---------------------------------------------------------------------------

  /** Keys that are all taken, and where they leave the cursor. */
  ghost predicate Taken(keys: seq<Byte>, pos: nat) {
    LineAfter(keys).buf == keys && PosAfter(keys) == pos
  }

  lemma TakeOne(keys: seq<Byte>, ch: Byte, pos: nat, longer: seq<Byte>)
    requires Taken(keys, pos) && longer == keys + [ch] && |keys| < KEYBOARD_BUFFER_SIZE - 1
    requires ch == NEWLINE || ch == 97
    ensures Taken(longer, if ch == NEWLINE then pos - pos % COLUMNS + COLUMNS else pos + 1)
  {
    LineAfterSnoc(keys, ch);
    TakenByLine(LineAfter(keys), ch);
    PosAfterSnoc(keys, ch);
  }

  lemma TakenByLine(line: Line, ch: Byte)
    requires |line.buf| < KEYBOARD_BUFFER_SIZE - 1 && (ch == NEWLINE || ch == 97)
    ensures PressKey(line, ch).buf == line.buf + [ch]
  {
  }

  /** `n` times the same key after some others. */
  function Again(keys: seq<Byte>, ch: Byte, n: nat): (s: seq<Byte>)
    ensures |s| == |keys| + n
    ensures forall k :: k in s ==> k in keys || k == ch
  {
    if n == 0 then keys else Again(keys, ch, n - 1) + [ch]
  }

  lemma {:induction false} TakeEnters(n: nat)
    requires n < KEYBOARD_BUFFER_SIZE
    ensures Taken(Again([], NEWLINE, n), COLUMNS * n)
  {
    if n > 0 {
      TakeEnters(n - 1);
      TakeOne(Again([], NEWLINE, n - 1), NEWLINE, COLUMNS * (n - 1), Again([], NEWLINE, n));
    }
  }

  lemma {:induction false} TakeLetters(keys: seq<Byte>, pos: nat, n: nat)
    requires Taken(keys, pos) && |keys| + n < KEYBOARD_BUFFER_SIZE
    ensures Taken(Again(keys, 97, n), pos + n)
  {
    if n > 0 {
      TakeLetters(keys, pos, n - 1);
      TakeOne(Again(keys, 97, n - 1), 97, pos + n - 1, Again(keys, 97, n));
    }
  }

  /** A letter that fills the last row, and its erasure. */
  lemma OneMoreAndBack(fewer: seq<Byte>, most: seq<Byte>, all: seq<Byte>)
    requires Taken(fewer, COLUMNS * ROWS - 1) && Taken(most, COLUMNS * ROWS)
    requires most == fewer + [97] && all == most + [BACKSPACE]
    ensures LineAfter(all).buf == fewer && MostRows(all) > RowsOf(fewer)
  {
    LineAfterSnoc(most, BACKSPACE);
    MostRowsSnoc(fewer, 97);
    MostRowsSnoc(most, BACKSPACE);
    InitOfSnoc(fewer, 97);
  }

  /** 24 times Enter, 80 letters and one Backspace: the screen has scrolled by a row that the redrawn
      one still shows. */
  lemma ErasingDoesNotScrollBack()
    ensures var keys := Again(Again([], NEWLINE, 24), 97, 80) + [BACKSPACE];
            var t := Perform(FRESH, KeyActions(keys));
            t.Some? && t != Act(t.value, Redraw)
  {
    var enters := Again([], NEWLINE, 24);
    TakeEnters(24);
    TakeLetters(enters, COLUMNS * 24, 79);
    TakeLetters(enters, COLUMNS * 24, 80);
    var fewer, most := Again(enters, 97, 79), Again(enters, 97, 80);
    OneMoreAndBack(fewer, most, most + [BACKSPACE]);
    ScreenIsRedrawnIff(most + [BACKSPACE]);
  }
}
