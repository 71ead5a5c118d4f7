/** One terminal's 80x25 character screen, and the unbounded paper it is a window on. */
module Screens {
  import opened Common

  const COLUMNS := 80
  const ROWS := 25
  const CELLS := 2000

  /** A character in white on black, as `video_buffer_putc` stores it. */
  function Glyph(ch: Byte): Word {
    0x0F00 + ch
  }

  const BLANK: Word := Glyph(SPACE)

  function BlankCells(n: nat): (s: seq<Word>)
    ensures |s| == n
    ensures forall i :: 0 <= i < n ==> s[i] == BLANK
  {
    seq(n, _ => BLANK)
  }

  datatype Screen = Screen(cells: seq<Word>, x: nat, y: nat)

  predicate Valid(s: Screen) {
    |s.cells| == CELLS && s.x < COLUMNS && s.y < ROWS
  }

  /** `VIDEO_INDEX(x, y)`; the linear position of the cursor. */
  function Pos(s: Screen): nat {
    s.y * COLUMNS + s.x
  }

  const CLEAR := Screen(BlankCells(CELLS), 0, 0)

  /** The one output that leaves the screen: a backspace in the home cell makes the 8-bit row
      255 and stores a blank at cell 20479, outside every terminal buffer. */
  predicate WildWrite(s: Screen, ch: Byte) {
    ch == BACKSPACE && s.x == 0 && s.y == 0
  }

  /** Start of the row below `y`, scrolling up by one row at the bottom. */
  function NextRow(cells: seq<Word>, y: nat): Screen
    requires |cells| == CELLS
  {
    if y + 1 >= ROWS then Screen(cells[COLUMNS..] + BlankCells(COLUMNS), 0, ROWS - 1)
    else Screen(cells, 0, y + 1)
  }

  /** `putc_internal` on one terminal. */
  function Put(s: Screen, ch: Byte): (r: Screen)
    requires Valid(s) && !WildWrite(s, ch)
    ensures Valid(r)
  {
    if ch == BACKSPACE then
      var (x, y) := if s.x == 0 then (COLUMNS - 1, s.y - 1) else (s.x - 1, s.y);
      Screen(s.cells[y * COLUMNS + x := BLANK], x, y)
    else if ch == NEWLINE then NextRow(s.cells, s.y)
    else if ch == TAB then s
    else
      var cells := s.cells[Pos(s) := Glyph(ch)];
      if s.x + 1 >= COLUMNS then NextRow(cells, s.y) else Screen(cells, s.x + 1, s.y)
  }

  /** A whole output string; `None` as soon as it would write outside the screen. */
  function PutAll(s: Screen, bytes: seq<Byte>): (r: Option<Screen>)
    requires Valid(s)
    ensures r.Some? ==> Valid(r.value)
  {
    if bytes == [] then Some(s)
    else
      var n := |bytes| - 1;
      match PutAll(s, bytes[..n])
      case None => None
      case Some(s') => if WildWrite(s', bytes[n]) then None else Some(Put(s', bytes[n]))
  }

  lemma PutAllSnoc(s: Screen, bytes: seq<Byte>, ch: Byte)
    requires Valid(s)
    ensures PutAll(s, bytes + [ch]) ==
            match PutAll(s, bytes)
            case None => None
            case Some(s') => if WildWrite(s', ch) then None else Some(Put(s', ch))
  {
    assert (bytes + [ch])[..|bytes|] == bytes;
  }

  lemma {:induction false} PutAllAppend(s: Screen, a: seq<Byte>, b: seq<Byte>)
    requires Valid(s)
    ensures PutAll(s, a + b) ==
            match PutAll(s, a) case None => None case Some(s') => PutAll(s', b)
    decreases |b|
  {
    if b == [] {
      assert a + b == a;
    } else {
      var n := |b| - 1;
      assert a + b == (a + b[..n]) + [b[n]];
      PutAllSnoc(s, a + b[..n], b[n]);
      PutAllAppend(s, a, b[..n]);
    }
  }

  // ---------------------------------------------------------------------------
  // The paper
  // ---------------------------------------------------------------------------

  /** A teletype: an endless strip of cells written at `pos`, in rows of 80.  Rows are fed,
      never discarded; the last 25 of them are on view. */
  datatype Paper = Paper(cells: seq<Word>, pos: nat)

  predicate ValidPaper(p: Paper) {
    && |p.cells| % COLUMNS == 0
    && |p.cells| >= CELLS
    && |p.cells| - CELLS <= p.pos < |p.cells|
  }

  /** Feeds one more row when the position has run off the last one. */
  function Feed(p: Paper): Paper {
    if p.pos == |p.cells| then Paper(p.cells + BlankCells(COLUMNS), p.pos) else p
  }

  function Type(p: Paper, ch: Byte): Paper
    requires ValidPaper(p)
  {
    if ch == BACKSPACE then
      if p.pos == 0 then p else Paper(p.cells[p.pos - 1 := BLANK], p.pos - 1)
    else if ch == NEWLINE then Feed(Paper(p.cells, p.pos - p.pos % COLUMNS + COLUMNS))
    else if ch == TAB then p
    else Feed(Paper(p.cells[p.pos := Glyph(ch)], p.pos + 1))
  }

  /** What is on view. */
  function View(p: Paper): (s: Screen)
    requires ValidPaper(p)
    ensures Valid(s)
    ensures Pos(s) == p.pos - (|p.cells| - CELLS)
  {
    var top := |p.cells| - CELLS;
    Screen(p.cells[top..], (p.pos - top) % COLUMNS, (p.pos - top) / COLUMNS)
  }

  /** Every row but the topmost 25 is out of reach, so the strip above the view never changes. */
  predicate OnlyGrows(p: Paper, q: Paper) {
    && |p.cells| <= |q.cells|
    && |p.cells| >= CELLS
    && p.cells[..|p.cells| - CELLS] == q.cells[..|p.cells| - CELLS]
  }

  lemma PositionInRow(top: int, pos: int)
    requires top % COLUMNS == 0 && 0 <= top <= pos
    ensures (pos - top) % COLUMNS == pos % COLUMNS
  {
  }

  /** The in-place screen (scrolled by moving memory) shows the last 25 rows of the paper. */
  lemma PutIsType(p: Paper, ch: Byte)
    requires ValidPaper(p) && !WildWrite(View(p), ch)
    ensures ValidPaper(Type(p, ch))
    ensures View(Type(p, ch)) == Put(View(p), ch)
    ensures OnlyGrows(p, Type(p, ch))
  {
    if ch == BACKSPACE {
      BackspaceIsType(p);
    } else if ch == NEWLINE {
      FeedIsNextRow(p, p.pos - p.pos % COLUMNS + COLUMNS);
    } else if ch != TAB {
      GlyphIsType(p, ch);
    }
  }

  lemma BackspaceIsType(p: Paper)
    requires ValidPaper(p) && !WildWrite(View(p), BACKSPACE)
    ensures var q := Type(p, BACKSPACE);
            ValidPaper(q) && View(q) == Put(View(p), BACKSPACE) && OnlyGrows(p, q)
  {
    var top := |p.cells| - CELLS;
    var q := Type(p, BACKSPACE);
    assert q.cells[top..] == View(p).cells[Pos(View(p)) - 1 := BLANK];
    assert q.cells[..top] == p.cells[..top];
  }

  lemma GlyphIsType(p: Paper, ch: Byte)
    requires ValidPaper(p) && ch != BACKSPACE && ch != NEWLINE && ch != TAB
    ensures var q := Type(p, ch);
            ValidPaper(q) && View(q) == Put(View(p), ch) && OnlyGrows(p, q)
  {
    var r := Paper(p.cells[p.pos := Glyph(ch)], p.pos);
    GlyphStored(p, ch);
    if View(p).x + 1 >= COLUMNS {
      PositionInRow(|p.cells| - CELLS, p.pos);
      FeedIsNextRow(r, p.pos + 1);
    } else {
      StepInRow(r);
    }
  }

  lemma StepInRow(p: Paper)
    requires ValidPaper(p) && View(p).x + 1 < COLUMNS
    ensures var q := Paper(p.cells, p.pos + 1);
            ValidPaper(q) && View(q) == View(p).(x := View(p).x + 1)
  {
    var offset := p.pos - (|p.cells| - CELLS);
    assert (offset + 1) % COLUMNS == offset % COLUMNS + 1;
  }

  lemma GlyphStored(p: Paper, ch: Byte)
    requires ValidPaper(p)
    ensures var r := Paper(p.cells[p.pos := Glyph(ch)], p.pos);
            && ValidPaper(r) && View(r) == View(p).(cells := View(p).cells[Pos(View(p)) := Glyph(ch)])
            && OnlyGrows(p, r)
  {
    var top := |p.cells| - CELLS;
    var cells := p.cells[p.pos := Glyph(ch)];
    assert cells[top..] == p.cells[top..][p.pos - top := Glyph(ch)];
    assert cells[..top] == p.cells[..top];
  }

  lemma FeedIsNextRow(p: Paper, next: nat)
    requires ValidPaper(p) && next == p.pos - p.pos % COLUMNS + COLUMNS
    ensures var q := Feed(Paper(p.cells, next));
            ValidPaper(q) && View(q) == NextRow(View(p).cells, View(p).y) && OnlyGrows(p, q)
  {
    var top := |p.cells| - CELLS;
    PositionInRow(top, p.pos);
    var q := Feed(Paper(p.cells, next));
    assert (next - top) % COLUMNS == 0 && (next - top) / COLUMNS == View(p).y + 1;
    if next == |p.cells| {
      assert q.cells[top + COLUMNS..] == p.cells[top..][COLUMNS..] + BlankCells(COLUMNS);
    }
  }

  function TypeAll(p: Paper, bytes: seq<Byte>): (r: Option<Paper>)
    requires ValidPaper(p)
    ensures r.Some? ==> ValidPaper(r.value)
  {
    if bytes == [] then Some(p)
    else
      var n := |bytes| - 1;
      match TypeAll(p, bytes[..n])
      case None => None
      case Some(q) =>
        if bytes[n] == BACKSPACE && q.pos == |q.cells| - CELLS then None
        else (PutIsType(q, bytes[n]); Some(Type(q, bytes[n])))
  }

  /** For every output string, however often it scrolls: the screen is the view of the paper,
      and the screen is left exactly when a backspace is typed at the top of the view. */
  lemma {:induction false} ScreenShowsPaper(p: Paper, bytes: seq<Byte>)
    requires ValidPaper(p)
    ensures PutAll(View(p), bytes) ==
            match TypeAll(p, bytes) case None => None case Some(q) => Some(View(q))
  {
    if bytes != [] {
      var n := |bytes| - 1;
      ScreenShowsPaper(p, bytes[..n]);
      match TypeAll(p, bytes[..n])
      case None =>
      case Some(q) =>
        if !WildWrite(View(q), bytes[n]) {
          PutIsType(q, bytes[n]);
        }
    }
  }
}
