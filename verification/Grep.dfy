/** The `grep` program's search of one file: reads into the free part of a buffer, searches whole
    lines in place, and carries an unfinished line over to the next read. */
module Grep {
  import opened Common
  import opened FileSystem
  import opened GrepSpec

  // ---------------------------------------------------------------------------
  // How a searched piece comes off the front
  // ---------------------------------------------------------------------------

  lemma HitsOfFullBuffer(piece: seq<Byte>, rest: seq<Byte>, keep: Choice)
    requires |piece| == BUFSIZE && NEWLINE !in piece
    ensures Hits(piece + rest, keep) == Hit(piece, keep) + Hits(rest, keep)
  {
    var s := piece + rest;
    var k := LineLength(s);
    assert s[..BUFSIZE] == piece && s[BUFSIZE..] == rest;
    assert k >= BUFSIZE;
    UnfoldHits(s, keep);
  }

  lemma HitsOfLastPiece(piece: seq<Byte>, keep: Choice)
    requires |piece| < BUFSIZE && NEWLINE !in piece && !keep([])
    ensures Hits(piece, keep) == Hit(piece, keep)
  {
    assert piece[..|piece|] == piece;
    if piece != [] {
      LineLengthIs(piece, |piece|);
    }
  }

  // ---------------------------------------------------------------------------
  // String routines of ece391support.c
  // ---------------------------------------------------------------------------

  /** `ece391_strncmp (data + at, pattern, |pattern|) == 0`, with a NUL at `end`. */
  method MatchAt(data: array<Byte>, at: nat, ghost end: nat, pattern: seq<Byte>) returns (equal: bool)
    requires at <= end < data.Length && data[end] == 0 && 0 !in pattern
    ensures equal <==> at + |pattern| <= end && data[at..at + |pattern|] == pattern
  {
    if pattern == [] {
      return true;
    }
    var i := 0;
    while data[at + i] == pattern[i]
      invariant 0 <= i < |pattern| && at + i <= end
      invariant data[at..at + i] == pattern[..i]
      decreases |pattern| - i
    {
      assert pattern[i] in pattern;
      if data[at + i] == 0 || i + 1 == |pattern| {
        return true;
      }
      i := i + 1;
    }
    assert at + |pattern| <= end ==> data[at..at + |pattern|][i] == data[at + i];
    equal := false;
  }

  /** `ece391_strcpy (data, data + src)`, downwards over itself, with the first NUL at `end`. */
  method CopyDown(data: array<Byte>, src: nat, ghost end: nat)
    requires 0 < src <= end < data.Length && data[end] == 0 && 0 !in data[src..end]
    modifies data
    ensures data[..end - src] == old(data[src..end])
    ensures forall k :: end - src < k < data.Length ==> data[k] == old(data[k])
  {
    var i := 0;
    while data[src + i] != 0
      invariant 0 <= i <= end - src
      invariant forall k :: 0 <= k < i ==> data[k] == old(data[src + k])
      invariant forall k :: i <= k < data.Length ==> data[k] == old(data[k])
      decreases end - i
    {
      data[i] := data[src + i];
      i := i + 1;
    }
    assert i == end - src;
    data[i] := 0;
  }

  /** The scan for the end of the line. */
  method LineEnd(data: array<Byte>, start: nat, last: nat) returns (end: nat)
    requires start <= last <= data.Length
    ensures start <= end <= last && NEWLINE !in data[start..end]
    ensures end < last ==> data[end] == NEWLINE
  {
    end := start;
    while end < last && data[end] != NEWLINE
      invariant start <= end <= last && NEWLINE !in data[start..end]
    {
      end := end + 1;
    }
  }

  /** The search of one NUL-terminated line. */
  method SearchLine(data: array<Byte>, start: nat, end: nat, pattern: seq<Byte>) returns (found: bool)
    requires start <= end < data.Length && data[end] == 0 && 0 !in data[start..end] && 0 !in pattern
    ensures found == Found(data[start..end], pattern)
  {
    var first: int := if pattern == [] then 0 else pattern[0];
    if first >= 128 {
      first := first - 256;  // the pattern is an array of signed char
    }
    ghost var line := data[start..end];
    for check := start to end
      invariant first > 0 ==> forall i :: 0 <= i < check - start ==> !OccursAt(line, pattern, i)
    {
      assert line[check - start] == data[check];
      if first == data[check] {
        var equal := MatchAt(data, check, end, pattern);
        Relative(data[..], start, end, check, pattern);
        if equal {
          assert OccursAt(line, pattern, check - start);
          return true;
        }
      } else if first > 0 {
        assert !OccursAt(line, pattern, check - start);
      }
    }
    found := false;
  }

  lemma Relative(data: seq<Byte>, start: nat, end: nat, check: nat, pattern: seq<Byte>)
    requires start <= check <= end <= |data|
    ensures OccursAt(data[start..end], pattern, check - start) <==>
            check + |pattern| <= end && data[check..check + |pattern|] == pattern
  {
    if check + |pattern| <= end {
      SliceOfSlice(data, start, end, check - start, check - start + |pattern|);
    }
  }

  // ---------------------------------------------------------------------------
  // One buffer
  // ---------------------------------------------------------------------------

  /** The four writes for each line found. */
  function Render(name: seq<Byte>, hits: seq<seq<Byte>>): seq<seq<Byte>> {
    if hits == [] then [] else [name, [58], hits[0], [NEWLINE]] + Render(name, hits[1..])
  }

  lemma {:induction false} RenderAppend(name: seq<Byte>, a: seq<seq<Byte>>, b: seq<seq<Byte>>)
    ensures Render(name, a + b) == Render(name, a) + Render(name, b)
  {
    if a == [] {
      assert a + b == b;
    } else {
      assert (a + b)[1..] == a[1..] + b;
      RenderAppend(name, a[1..], b);
    }
  }

  /** What a reader sees for one line: name, colon, line, newline. */
  lemma RenderedLine(name: seq<Byte>, line: seq<Byte>)
    ensures Concat(Render(name, [line])) == name + [':' as int] + line + ['\n' as int]
  {
    assert [line][1..] == [];
    var w: seq<seq<Byte>> := [name, [58], line];
    assert Render(name, [line]) == w + [[NEWLINE]];
    ConcatSnoc(w, [NEWLINE]);
    ConcatSnoc([name, [58]], line);
    ConcatSnoc([name], [58]);
    assert Concat([name]) == name;
  }

  /** What is printed tells what was found. */
  lemma {:induction false} RenderIsInjective(name: seq<Byte>, a: seq<seq<Byte>>, b: seq<seq<Byte>>)
    ensures Render(name, a) == Render(name, b) <==> a == b
  {
    if a != [] && b != [] && Render(name, a) == Render(name, b) {
      var ra, rb := Render(name, a), Render(name, b);
      assert ra[2] == a[0] && rb[2] == b[0];
      assert ra[4..] == Render(name, a[1..]) && rb[4..] == Render(name, b[1..]);
      RenderIsInjective(name, a[1..], b[1..]);
      assert a == [a[0]] + a[1..] && b == [b[0]] + b[1..];
    }
  }

  /** Terminates, searches and prints one line. */
  method PrintIfFound(data: array<Byte>, start: nat, end: nat, pattern: seq<Byte>, name: seq<Byte>)
    returns (writes: seq<seq<Byte>>)
    requires start <= end < data.Length && 0 !in data[..][start..end] && 0 !in pattern
    modifies data
    ensures writes == Render(name, Hit(old(data[..])[start..end], Finding(pattern)))
    ensures data[..] == old(data[..])[end := 0]
  {
    ghost var line := data[..][start..end];
    data[end] := 0;
    assert data[start..end] == line;
    var found := SearchLine(data, start, end, pattern);
    writes := [];
    if found {
      writes := [name, [58], data[start..end], [NEWLINE]];
      assert [data[start..end]][1..] == [];
    }
  }

  /** What is printed for a string. */
  ghost function Shown(text: seq<Byte>, name: seq<Byte>, pattern: seq<Byte>): seq<seq<Byte>> {
    Render(name, Hits(text, Finding(pattern)))
  }

  /** What was printed, followed by what is to be printed for `text`, is what the whole prints. */
  ghost predicate Owed(whole: seq<seq<Byte>>, writes: seq<seq<Byte>>, text: seq<Byte>, name: seq<Byte>, pattern: seq<Byte>) {
    whole == writes + Shown(text, name, pattern)
  }

  /** The text still to be searched: from `start` to `last` in the buffer, then the rest of the file. */
  ghost predicate Held(text: seq<Byte>, buffer: seq<Byte>, start: nat, last: nat, rest: seq<Byte>) {
    && start <= last <= BUFSIZE && |buffer| == BUFSIZE + 1
    && buffer[BUFSIZE] != NEWLINE && 0 !in buffer[start..last]
    && text == buffer[start..last] + rest
  }

  /** A line comes off the front of the text. */
  lemma LineComesOff(line: seq<Byte>, after: seq<Byte>, keep: Choice)
    requires |line| < BUFSIZE && NEWLINE !in line
    ensures Hits(line + ([NEWLINE] + after), keep) == Hit(line, keep) + Hits(after, keep)
  {
    var s := line + ([NEWLINE] + after);
    assert s[..|line|] == line && s[|line| + 1..] == after;
    HitsOfLine(s, |line|, keep);
  }

  /** So does a piece without a newline, when nothing follows or it fills the buffer. */
  lemma PieceComesOff(piece: seq<Byte>, rest: seq<Byte>, keep: Choice)
    requires |piece| <= BUFSIZE && NEWLINE !in piece && !keep([])
    requires |piece| == BUFSIZE || |rest| == 0
    ensures Hits(piece + rest, keep) == Hit(piece, keep) + Hits(rest, keep)
  {
    if |piece| == BUFSIZE {
      HitsOfFullBuffer(piece, rest, keep);
    } else {
      assert piece + rest == piece;
      HitsOfLastPiece(piece, keep);
    }
  }

  /** Printing what came off leaves the rest owed. */
  lemma OwedAfter(whole: seq<seq<Byte>>, writes: seq<seq<Byte>>, text: seq<Byte>, hits: seq<seq<Byte>>, after: seq<Byte>,
                  name: seq<Byte>, pattern: seq<Byte>)
    requires Owed(whole, writes, text, name, pattern)
    requires Hits(text, Finding(pattern)) == hits + Hits(after, Finding(pattern))
    ensures Owed(whole, writes + Render(name, hits), after, name, pattern)
  {
    RenderAppend(name, hits, Hits(after, Finding(pattern)));
    AppendAssociates(writes, Render(name, hits), Shown(after, name, pattern));
  }

  lemma OwedPastLine(whole: seq<seq<Byte>>, writes: seq<seq<Byte>>, line: seq<Byte>, after: seq<Byte>,
                     name: seq<Byte>, pattern: seq<Byte>)
    requires |line| < BUFSIZE && NEWLINE !in line
    requires Owed(whole, writes, line + ([NEWLINE] + after), name, pattern)
    ensures Owed(whole, writes + Render(name, Hit(line, Finding(pattern))), after, name, pattern)
  {
    LineComesOff(line, after, Finding(pattern));
    OwedAfter(whole, writes, line + ([NEWLINE] + after), Hit(line, Finding(pattern)), after, name, pattern);
  }

  lemma OwedPastPiece(whole: seq<seq<Byte>>, writes: seq<seq<Byte>>, piece: seq<Byte>, rest: seq<Byte>,
                      name: seq<Byte>, pattern: seq<Byte>)
    requires |piece| <= BUFSIZE && NEWLINE !in piece && (|piece| == BUFSIZE || |rest| == 0)
    requires Owed(whole, writes, piece + rest, name, pattern)
    ensures Owed(whole, writes + Render(name, Hit(piece, Finding(pattern))), rest, name, pattern)
  {
    PieceComesOff(piece, rest, Finding(pattern));
    OwedAfter(whole, writes, piece + rest, Hit(piece, Finding(pattern)), rest, name, pattern);
  }

  /** The text when there is a newline at `end`, and what is held once that newline is overwritten. */
  lemma HeldPastLine(text: seq<Byte>, buffer: seq<Byte>, start: nat, end: nat, last: nat, rest: seq<Byte>, after: seq<Byte>)
    requires Held(text, buffer, start, last, rest) && start <= end < last && buffer[end] == NEWLINE
    requires after == buffer[end + 1..last] + rest
    ensures 0 !in buffer[start..end]
    ensures text == buffer[start..end] + ([NEWLINE] + after)
    ensures Held(after, buffer[end := 0], end + 1, last, rest)
  {
    NotInSubslice(buffer, start, last, start, end, 0);
    NotInSubslice(buffer, start, last, end + 1, last, 0);
    assert buffer[end := 0][end + 1..last] == buffer[end + 1..last];
    assert buffer[start..last] == buffer[start..end] + ([NEWLINE] + buffer[end + 1..last]);
  }

  lemma HeldPastBuffer(buffer: seq<Byte>, last: nat, rest: seq<Byte>)
    requires last <= BUFSIZE && |buffer| == BUFSIZE + 1 && buffer[BUFSIZE] != NEWLINE
    ensures Held(rest, buffer[last := 0], 0, 0, rest)
  {
    AppendToEmpty(rest);
    assert buffer[last := 0][0..0] == [];
  }

  lemma HeldNothing(text: seq<Byte>, buffer: seq<Byte>, at: nat, rest: seq<Byte>)
    requires Held(text, buffer, at, at, rest)
    ensures Held(text, buffer, 0, 0, rest)
  {
    assert buffer[at..at] == buffer[0..0];
  }

  /** Terminates, searches and prints the line from `start` to `end`. */
  method TakeLine(data: array<Byte>, start: nat, end: nat, last: nat, pattern: seq<Byte>, name: seq<Byte>,
                  ghost whole: seq<seq<Byte>>, ghost text: seq<Byte>, ghost rest: seq<Byte>, writes: seq<seq<Byte>>)
    returns (longer: seq<seq<Byte>>, ghost after: seq<Byte>)
    requires data.Length == BUFSIZE + 1 && start <= end < last && 0 !in pattern
    requires Held(text, data[..], start, last, rest) && Owed(whole, writes, text, name, pattern)
    requires NEWLINE !in data[..][start..end] && data[end] == NEWLINE
    modifies data
    ensures Held(after, data[..], end + 1, last, rest) && Owed(whole, longer, after, name, pattern) && EndsWith(text, after)
  {
    ghost var line := data[..][start..end];
    after := data[..][end + 1..last] + rest;
    HeldPastLine(text, data[..], start, end, last, rest, after);
    AppendAssociates(line, [NEWLINE], after);
    EndsWithAppended(line + [NEWLINE], after);
    OwedPastLine(whole, writes, line, after, name, pattern);
    var more := PrintIfFound(data, start, end, pattern, name);
    longer := writes + more;
  }

  /** The same for what is left of the buffer without a newline. */
  method TakeRest(data: array<Byte>, start: nat, last: nat, pattern: seq<Byte>, name: seq<Byte>,
                  ghost whole: seq<seq<Byte>>, ghost text: seq<Byte>, ghost rest: seq<Byte>, writes: seq<seq<Byte>>)
    returns (longer: seq<seq<Byte>>)
    requires data.Length == BUFSIZE + 1 && 0 !in pattern
    requires Held(text, data[..], start, last, rest) && Owed(whole, writes, text, name, pattern)
    requires NEWLINE !in data[..][start..last] && (last - start == BUFSIZE || |rest| == 0)
    modifies data
    ensures Held(rest, data[..], 0, 0, rest) && Owed(whole, longer, rest, name, pattern) && EndsWith(text, rest)
  {
    OwedPastPiece(whole, writes, data[..][start..last], rest, name, pattern);
    HeldPastBuffer(data[..], last, rest);
    EndsWithAppended(data[..][start..last], rest);
    var more := PrintIfFound(data, start, last, pattern, name);
    longer := writes + more;
  }

  /** Moves the unfinished line at `start` down to the front of the buffer. */
  method CarryOver(data: array<Byte>, start: nat, end: nat, ghost text: seq<Byte>, ghost rest: seq<Byte>) returns (last: nat)
    requires data.Length == BUFSIZE + 1 && 0 < start && Held(text, data[..], start, end, rest)
    modifies data
    ensures last == end - start && Held(text, data[..], 0, last, rest)
  {
    ghost var line := data[..][start..end];
    data[end] := 0;
    assert data[start..end] == line;
    CopyDown(data, start, end);
    last := end - start;
    assert data[..][0..last] == data[..last];
  }

  /** One turn of the inner loop: either it ends the loop and `next` is the new `last`, or it goes
      on with the line at `next`. */
  method Turn(data: array<Byte>, lineStart: nat, last: nat, cnt: nat, pattern: seq<Byte>, name: seq<Byte>,
              ghost whole: seq<seq<Byte>>, ghost text: seq<Byte>, ghost rest: seq<Byte>, writes: seq<seq<Byte>>)
    returns (finished: bool, next: nat, longer: seq<seq<Byte>>, ghost after: seq<Byte>)
    requires data.Length == BUFSIZE + 1 && (lineStart == 0 || lineStart < last) && 0 !in pattern
    requires Held(text, data[..], lineStart, last, rest) && Owed(whole, writes, text, name, pattern)
    requires last == BUFSIZE || |rest| == 0
    requires cnt == 0 ==> last < BUFSIZE
    modifies data
    ensures finished ==> next < BUFSIZE && (cnt == 0 ==> next == 0)
    ensures finished ==> Held(after, data[..], 0, next, rest)
    ensures !finished ==> lineStart < next < last && Held(after, data[..], next, last, rest)
    ensures Owed(whole, longer, after, name, pattern) && EndsWith(text, after)
  {
    ghost var before := data[..];
    var lineEnd := LineEnd(data, lineStart, last);
    assert before[lineStart..lineEnd] == data[lineStart..lineEnd];
    if data[lineEnd] != NEWLINE && cnt != 0 && lineStart != 0 {
      next := CarryOver(data, lineStart, lineEnd, text, rest);
      return true, next, writes, text;
    }
    if lineEnd < last {
      longer, after := TakeLine(data, lineStart, lineEnd, last, pattern, name, whole, text, rest, writes);
    } else {
      longer := TakeRest(data, lineStart, last, pattern, name, whole, text, rest, writes);
      after := rest;
    }
    if lineEnd + 1 >= last {
      if lineEnd < last {
        HeldNothing(after, data[..], last, rest);
      }
      return true, 0, longer, after;
    }
    return false, lineEnd + 1, longer, after;
  }

  /** The inner loop: searches the lines of the buffer and leaves an unfinished one at its front.
      `rest` is what the file still has to give. */
  method SearchBuffer(data: array<Byte>, last0: nat, cnt: nat, pattern: seq<Byte>, name: seq<Byte>,
                      ghost whole: seq<seq<Byte>>, ghost text: seq<Byte>, ghost rest: seq<Byte>, writes0: seq<seq<Byte>>)
    returns (last: nat, writes: seq<seq<Byte>>, ghost after: seq<Byte>)
    requires data.Length == BUFSIZE + 1 && 0 !in pattern
    requires Held(text, data[..], 0, last0, rest) && Owed(whole, writes0, text, name, pattern)
    requires last0 == BUFSIZE || |rest| == 0
    requires cnt == 0 ==> last0 < BUFSIZE
    modifies data
    ensures last < BUFSIZE && (cnt == 0 ==> last == 0)
    ensures Held(after, data[..], 0, last, rest) && Owed(whole, writes, after, name, pattern) && EndsWith(text, after)
  {
    var lineStart := 0;
    writes, after := writes0, text;
    while true
      invariant lineStart == 0 || lineStart < last0
      invariant Held(after, data[..], lineStart, last0, rest)
      invariant Owed(whole, writes, after, name, pattern) && EndsWith(text, after)
      decreases last0 - lineStart
    {
      var finished, next;
      ghost var before := after;
      finished, next, writes, after := Turn(data, lineStart, last0, cnt, pattern, name, whole, after, rest, writes);
      EndsWithIsTransitive(text, before, after);
      if finished {
        last := next;
        return;
      }
      lineStart := next;
    }
  }

  // ---------------------------------------------------------------------------
  // One file
  // ---------------------------------------------------------------------------

  /** What the file still has to give. */
  ghost function Rest(img: Image, inode: nat, position: nat): seq<Byte>
    requires WellFormed(img) && position <= |Legible(img, inode)|
  {
    Legible(img, inode)[position..]
  }

  /** After a read the buffer holds the carried bytes followed by the new ones. */
  lemma BufferAfterRead(before: seq<Byte>, after: seq<Byte>, last: nat, chunk: seq<Byte>)
    requires |before| == |after| == BUFSIZE + 1 && last + |chunk| <= BUFSIZE
    requires forall k :: 0 <= k < last ==> after[k] == before[k]
    requires after[last..last + |chunk|] == chunk
    ensures after[0..last + |chunk|] == before[0..last] + chunk
  {
  }

  /** One read into the free part of the buffer. */
  method Refill(f: OpenFile, img: Image, data: array<Byte>, last: nat) returns (cnt: int)
    requires WellFormed(img) && data.Length == BUFSIZE + 1 && last < BUFSIZE && f.position <= |Legible(img, f.inode)|
    requires data[BUFSIZE] != NEWLINE
    modifies f, data
    ensures cnt == -1 <==> ReadFails(img, f.inode, old(f.position), BUFSIZE - last)
    ensures data[BUFSIZE] != NEWLINE
    ensures cnt != -1 ==>
              && f.inode < |img.inodes| && 0 <= cnt <= BUFSIZE - last
              && f.position == old(f.position) + cnt <= |Legible(img, f.inode)|
              && (last + cnt == BUFSIZE || f.position == img.inodes[f.inode].length)
              && data[..][0..last + cnt] == old(data[..])[0..last] + Legible(img, f.inode)[old(f.position)..f.position]
  {
    ghost var before := data[..];
    ghost var from := f.position;
    cnt := ReadInto(f, img, data, last, BUFSIZE - last);
    if cnt != -1 {
      ReadIsLegible(img, f.inode, from, f.position);
      BufferAfterRead(before, data[..], last, Slice(img, img.inodes[f.inode], from, f.position));
    }
  }

  /** The call of `read`, with a count that is positive and bounded by the room there is. */
  method ReadInto(f: OpenFile, img: Image, data: array<Byte>, base: nat, room: nat) returns (cnt: int)
    requires WellFormed(img) && 0 < room < 0x8000_0000 && base + room <= data.Length
    requires f.inode < |img.inodes| ==> f.position <= img.inodes[f.inode].length
    requires f.position < 0x8000_0000
    modifies f, data
    ensures cnt == -1 <==> ReadFails(img, f.inode, old(f.position), room)
    ensures cnt != -1 ==>
              && f.inode < |img.inodes| && 0 <= cnt <= room && f.position == old(f.position) + cnt <= img.inodes[f.inode].length
              && (cnt == room || f.position == img.inodes[f.inode].length)
              && Holds(data[..], base, img, img.inodes[f.inode], old(f.position), f.position)
    ensures forall k :: 0 <= k < data.Length && !(base <= k < base + room) ==> data[k] == old(data[k])
  {
    ReachIsBounded(img, f.inode, f.position, room);
    cnt := f.FileRead(img, data, base, room);
  }

  lemma HeldAfterRead(text: seq<Byte>, before: seq<Byte>, after: seq<Byte>, last: nat, legible: seq<Byte>, from: nat, to: nat)
    requires from <= to <= |legible| && 0 !in legible && Held(text, before, 0, last, legible[from..])
    requires last + (to - from) <= BUFSIZE && |after| == BUFSIZE + 1 && after[BUFSIZE] != NEWLINE
    requires after[0..last + (to - from)] == before[0..last] + legible[from..to]
    ensures Held(text, after, 0, last + (to - from), legible[to..])
  {
    SplitTail(legible, from, to);
    AppendAssociates(before[0..last], legible[from..to], legible[to..]);
  }

  /** The read of one turn of the outer loop.  It leaves the text still to be searched as it was; if
      it fails, less than a buffer of that text was left. */
  method ReadMore(f: OpenFile, img: Image, data: array<Byte>, last: nat, ghost text: seq<Byte>) returns (cnt: int)
    requires WellFormed(img) && data.Length == BUFSIZE + 1 && last < BUFSIZE
    requires f.position <= |Legible(img, f.inode)| && 0 !in Legible(img, f.inode)
    requires Held(text, data[..], 0, last, Rest(img, f.inode, f.position))
    modifies f, data
    ensures cnt == -1 ==> !Intact(img, f.inode) && |text| < BUFSIZE
    ensures cnt != -1 ==> f.inode < |img.inodes| && 0 <= cnt && f.position == old(f.position) + cnt <= |Legible(img, f.inode)|
    ensures cnt != -1 ==> last + cnt <= BUFSIZE
    ensures cnt != -1 ==> last + cnt == BUFSIZE || |Rest(img, f.inode, f.position)| == 0
    ensures cnt != -1 ==> Held(text, data[..], 0, last + cnt, Rest(img, f.inode, f.position))
    ensures cnt == 0 ==> Intact(img, f.inode)
  {
    ghost var from, before := f.position, data[..];
    cnt := Refill(f, img, data, last);
    if cnt == -1 {
      FailureIsNear(img, f.inode, from, BUFSIZE - last);
    } else {
      HeldAfterRead(text, before, data[..], last, Legible(img, f.inode), from, f.position);
    }
  }

  /** One turn of the outer loop: a read and the search of what it brought. */
  method FillAndSearch(f: OpenFile, img: Image, data: array<Byte>, last0: nat, pattern: seq<Byte>, name: seq<Byte>,
                       ghost whole: seq<seq<Byte>>, ghost text0: seq<Byte>, writes0: seq<seq<Byte>>)
    returns (cnt: int, last: nat, writes: seq<seq<Byte>>, ghost text: seq<Byte>)
    requires WellFormed(img) && data.Length == BUFSIZE + 1 && last0 < BUFSIZE && 0 !in pattern
    requires f.position <= |Legible(img, f.inode)| && 0 !in Legible(img, f.inode)
    requires Held(text0, data[..], 0, last0, Rest(img, f.inode, f.position)) && Owed(whole, writes0, text0, name, pattern)
    modifies f, data
    ensures cnt == -1 ==> !Intact(img, f.inode) && |text| < BUFSIZE
    ensures cnt != -1 ==> f.inode < |img.inodes| && 0 <= cnt && f.position == old(f.position) + cnt <= |Legible(img, f.inode)|
    ensures cnt != -1 ==> last < BUFSIZE && Held(text, data[..], 0, last, Rest(img, f.inode, f.position))
    ensures Owed(whole, writes, text, name, pattern) && EndsWith(text0, text)
    ensures cnt == 0 ==> Intact(img, f.inode) && |text| == 0
  {
    cnt := ReadMore(f, img, data, last0, text0);
    if cnt == -1 {
      return cnt, last0, writes0, text0;
    }
    last, writes, text := SearchBuffer(data, last0 + cnt, cnt, pattern, name, whole, text0, Rest(img, f.inode, f.position), writes0);
  }

  lemma NothingOwed(whole: seq<seq<Byte>>, writes: seq<seq<Byte>>, text: seq<Byte>, name: seq<Byte>, pattern: seq<Byte>)
    requires Owed(whole, writes, text, name, pattern) && |text| == 0
    ensures whole == writes
  {
    assert text == [];
  }

  lemma PrintsMatchingLinesIff(text: seq<Byte>, name: seq<Byte>, pattern: seq<Byte>)
    ensures Shown(text, name, pattern) == Render(name, Filter(LinesOf(text), Containing(pattern))) <==>
            Searchable(LinesOf(text), pattern)
  {
    RenderIsInjective(name, Hits(text, Finding(pattern)), Filter(LinesOf(text), Containing(pattern)));
    GrepIsLineFilterIff(text, pattern);
  }

  /** `do_one_file` on an open file, with `data` as the stack left it.  It fails exactly when the
      file cannot be read to its end, and otherwise prints what a search of the whole file
      through a 1024-byte buffer prints, wherever the reads happen to fall: the lines containing
      the pattern, if and only if they fit the buffer and the pattern can be found.  If it fails, it
      has printed what such a search prints for all that can be read, but for less than the last
      1024 bytes of it. */
  method DoOneFile(img: Image, inode: nat, pattern: seq<Byte>, name: seq<Byte>, data: array<Byte>)
    returns (ok: bool, writes: seq<seq<Byte>>, ghost left: seq<Byte>)
    requires WellFormed(img) && 0 !in pattern && 0 !in Legible(img, inode)
    requires data.Length == BUFSIZE + 1 && data[BUFSIZE] != NEWLINE
    modifies data
    ensures ok <==> Intact(img, inode)
    ensures ok ==> writes == Render(name, Hits(File(img, inode), Finding(pattern)))
    ensures ok ==>
              var lines := LinesOf(File(img, inode));
              writes == Render(name, Filter(lines, Containing(pattern))) <==> Searchable(lines, pattern)
    ensures !ok ==> |left| < BUFSIZE && EndsWith(Legible(img, inode), left)
    ensures !ok ==> Render(name, Hits(Legible(img, inode), Finding(pattern))) == writes + Render(name, Hits(left, Finding(pattern)))
  {
    var f := new OpenFile(inode);
    var last: nat := 0;
    writes := [];
    left := Legible(img, inode);
    ghost var whole := Shown(left, name, pattern);
    StartsHeld(data[..], left);
    AppendToEmpty(whole);
    while true
      invariant fresh(f) && f.inode == inode && last < BUFSIZE && f.position <= |Legible(img, inode)|
      invariant Held(left, data[..], 0, last, Rest(img, inode, f.position))
      invariant Owed(whole, writes, left, name, pattern) && EndsWith(Legible(img, inode), left)
      decreases |Legible(img, inode)| - f.position
    {
      var cnt;
      ghost var before := left;
      cnt, last, writes, left := FillAndSearch(f, img, data, last, pattern, name, whole, before, writes);
      EndsWithIsTransitive(Legible(img, inode), before, left);
      if cnt == -1 {
        return false, writes, left;
      }
      if cnt == 0 {
        NothingOwed(whole, writes, left, name, pattern);
        PrintsMatchingLinesIff(File(img, inode), name, pattern);
        return true, writes, left;
      }
    }
  }

  lemma StartsHeld(buffer: seq<Byte>, legible: seq<Byte>)
    requires |buffer| == BUFSIZE + 1 && buffer[BUFSIZE] != NEWLINE
    ensures Held(legible, buffer, 0, 0, legible[0..]) && EndsWith(legible, legible)
  {
    assert buffer[0..0] == [] && legible[0..] == legible;
    AppendToEmpty(legible);
  }
}
