/** What a line search should print, and what a search through a 1024-byte buffer does print. */
module GrepSpec {
  import opened Common
  import opened RingBuffer

  const BUFSIZE := 1024

  /** Which lines to print. */
  type Choice = seq<Byte> -> bool

  predicate OccursAt(line: seq<Byte>, pattern: seq<Byte>, i: nat) {
    i + |pattern| <= |line| && line[i..i + |pattern|] == pattern
  }

  predicate Contains(line: seq<Byte>, pattern: seq<Byte>) {
    exists i :: 0 <= i <= |line| && OccursAt(line, pattern, i)
  }

  /** The choice the user asks for. */
  function Containing(pattern: seq<Byte>): Choice {
    line => Contains(line, pattern)
  }

  /** A pattern the program can find at all. */
  predicate Findable(pattern: seq<Byte>) {
    pattern != [] && pattern[0] < 128
  }

  /** The choice the program makes.  It compares the first pattern character as a signed char, so
      a pattern starting with a byte of 128 or more never matches; and it compares the terminator
      of an empty pattern with characters that are never NUL. */
  predicate Found(line: seq<Byte>, pattern: seq<Byte>) {
    Findable(pattern) && Contains(line, pattern)
  }

  function Finding(pattern: seq<Byte>): Choice {
    line => Found(line, pattern)
  }

  // ---------------------------------------------------------------------------
  // Reference: filter the lines of a file
  // ---------------------------------------------------------------------------

  /** Length of the first line, without its newline. */
  function LineLength(s: seq<Byte>): (k: nat)
    ensures k <= |s| && NEWLINE !in s[..k] && (k < |s| ==> s[k] == NEWLINE)
  {
    var i := FirstIndexOf(s, NEWLINE);
    assert s[..|s|] == s;
    if i < 0 then |s| else i
  }

  /** What follows the first line. */
  function AfterLine(s: seq<Byte>): seq<Byte> {
    var k := LineLength(s);
    if k < |s| then s[k + 1..] else []
  }

  function LinesOf(s: seq<Byte>): seq<seq<Byte>>
    decreases |s|
  {
    if s == [] then [] else [s[..LineLength(s)]] + LinesOf(AfterLine(s))
  }

  /** Lines put together again, each with its newline. */
  function Joined(lines: seq<seq<Byte>>): seq<Byte> {
    if lines == [] then [] else lines[0] + [NEWLINE] + Joined(lines[1..])
  }

  lemma JoinedCons(first: seq<Byte>, rest: seq<seq<Byte>>)
    ensures Joined([first] + rest) == first + [NEWLINE] + Joined(rest)
  {
    assert ([first] + rest)[1..] == rest;
  }

  /** A file whose last line is ended. */
  function Ended(s: seq<Byte>): seq<Byte> {
    if s == [] || s[|s| - 1] == NEWLINE then s else s + [NEWLINE]
  }

  lemma EndedAfterLine(s: seq<Byte>)
    requires s != []
    ensures Ended(s) == s[..LineLength(s)] + [NEWLINE] + Ended(AfterLine(s))
  {
    var k := LineLength(s);
    if k < |s| {
      var rest := AfterLine(s);
      assert s == s[..k] + [NEWLINE] + rest;
      AppendAssociates(s[..k] + [NEWLINE], rest, [NEWLINE]);
      assert rest != [] ==> rest[|rest| - 1] == s[|s| - 1];
    } else {
      assert s[..k] == s;
      assert s[|s| - 1] in s;
    }
  }

  /** The lines hold no newline and, joined, make up the file, its last line ended. */
  lemma {:induction false} LinesMakeUpFile(s: seq<Byte>)
    ensures Joined(LinesOf(s)) == Ended(s)
    ensures forall line :: line in LinesOf(s) ==> NEWLINE !in line
    decreases |s|
  {
    if s != [] {
      LinesMakeUpFile(AfterLine(s));
      JoinedCons(s[..LineLength(s)], LinesOf(AfterLine(s)));
      EndedAfterLine(s);
    }
  }

  function Hit(line: seq<Byte>, keep: Choice): seq<seq<Byte>> {
    if keep(line) then [line] else []
  }

  function Filter(lines: seq<seq<Byte>>, keep: Choice): seq<seq<Byte>> {
    if lines == [] then [] else Hit(lines[0], keep) + Filter(lines[1..], keep)
  }

  // ---------------------------------------------------------------------------
  // What the buffer search prints
  // ---------------------------------------------------------------------------

  /** A line that does not fit the buffer is searched, and printed, in pieces of 1024 bytes. */
  function Hits(s: seq<Byte>, keep: Choice): seq<seq<Byte>>
    decreases |s|
  {
    if s == [] then []
    else if LineLength(s) < BUFSIZE then Hit(s[..LineLength(s)], keep) + Hits(AfterLine(s), keep)
    else Hit(s[..BUFSIZE], keep) + Hits(s[BUFSIZE..], keep)
  }

  lemma UnfoldHits(s: seq<Byte>, keep: Choice)
    requires s != []
    ensures LineLength(s) < BUFSIZE ==> Hits(s, keep) == Hit(s[..LineLength(s)], keep) + Hits(AfterLine(s), keep)
    ensures LineLength(s) >= BUFSIZE ==> Hits(s, keep) == Hit(s[..BUFSIZE], keep) + Hits(s[BUFSIZE..], keep)
  {
  }

  /** Every line to be printed fits the buffer. */
  predicate Fit(lines: seq<seq<Byte>>, keep: Choice) {
    forall i :: 0 <= i < |lines| ==> keep(lines[i]) ==> |lines[i]| <= BUFSIZE
  }

  // ---------------------------------------------------------------------------
  // The two agree exactly when every chosen line fits
  // ---------------------------------------------------------------------------

  /** No empty line is chosen, and no part of a line that is not. */
  ghost predicate Sensible(keep: Choice) {
    !keep([]) && forall line: seq<Byte>, from, to :: 0 <= from <= to <= |line| && keep(line[from..to]) ==> keep(line)
  }

  lemma LineLengthIs(s: seq<Byte>, k: nat)
    requires k <= |s| && NEWLINE !in s[..k] && (k < |s| ==> s[k] == NEWLINE)
    ensures LineLength(s) == k
  {
  }

  /** Cutting 1024 bytes off a longer first line leaves the rest of that line first. */
  lemma CutLongLine(s: seq<Byte>)
    requires LineLength(s) > BUFSIZE
    ensures LineLength(s[BUFSIZE..]) == LineLength(s) - BUFSIZE && AfterLine(s[BUFSIZE..]) == AfterLine(s)
    ensures s[BUFSIZE..] != []
    ensures s[..BUFSIZE] == s[..LineLength(s)][0..BUFSIZE]
    ensures s[BUFSIZE..][..LineLength(s) - BUFSIZE] == s[..LineLength(s)][BUFSIZE..LineLength(s)]
  {
    var k := LineLength(s);
    var rest := s[BUFSIZE..];
    TailOfPrefix(s, k, BUFSIZE);
    NotInSubslice(s, 0, k, BUFSIZE, k, NEWLINE);
    LineLengthIs(rest, k - BUFSIZE);
    if k < |s| {
      TailOfTail(s, BUFSIZE, k - BUFSIZE + 1);
    }
  }

  lemma FitCons(first: seq<Byte>, rest: seq<seq<Byte>>, keep: Choice)
    ensures Fit([first] + rest, keep) <==> (keep(first) ==> |first| <= BUFSIZE) && Fit(rest, keep)
  {
    var lines := [first] + rest;
    assert forall i :: 0 <= i < |rest| ==> rest[i] == lines[i + 1];
    assert lines[0] == first;
    if Fit(rest, keep) && (keep(first) ==> |first| <= BUFSIZE) {
      forall i | 0 <= i < |lines|
        ensures keep(lines[i]) ==> |lines[i]| <= BUFSIZE
      {
        if i > 0 { assert lines[i] == rest[i - 1]; }
      }
    }
  }

  lemma UnfoldFilter(s: seq<Byte>, keep: Choice)
    requires s != []
    ensures Filter(LinesOf(s), keep) == Hit(s[..LineLength(s)], keep) + Filter(LinesOf(AfterLine(s)), keep)
  {
    assert LinesOf(s)[1..] == LinesOf(AfterLine(s));
  }

  lemma UnfoldFit(s: seq<Byte>, keep: Choice)
    requires s != []
    ensures Fit(LinesOf(s), keep) <==>
              (keep(s[..LineLength(s)]) ==> LineLength(s) <= BUFSIZE) && Fit(LinesOf(AfterLine(s)), keep)
  {
    FitCons(s[..LineLength(s)], LinesOf(AfterLine(s)), keep);
  }

  lemma HitsOfLine(s: seq<Byte>, k: nat, keep: Choice)
    requires k < |s| && k < BUFSIZE && NEWLINE !in s[..k] && s[k] == NEWLINE
    ensures Hits(s, keep) == Hit(s[..k], keep) + Hits(s[k + 1..], keep)
  {
    LineLengthIs(s, k);
    assert AfterLine(s) == s[k + 1..];
    UnfoldHits(s, keep);
  }

  lemma EmptyLineFirst(s: seq<Byte>, keep: Choice)
    requires s != [] && s[0] == NEWLINE && !keep([])
    ensures Hits(s, keep) == Hits(s[1..], keep)
  {
    HitsOfLine(s, 0, keep);
    assert s[..0] == [];
    AppendToEmpty(Hits(s[1..], keep));
  }

  lemma {:induction false} FittingLinesAreFiltered(s: seq<Byte>, keep: Choice)
    requires Fit(LinesOf(s), keep) && Sensible(keep)
    ensures Hits(s, keep) == Filter(LinesOf(s), keep)
    decreases |s|
  {
    if s != [] {
      var k := LineLength(s);
      UnfoldHits(s, keep);
      UnfoldFit(s, keep);
      UnfoldFilter(s, keep);
      if k < BUFSIZE {
        FittingLinesAreFiltered(AfterLine(s), keep);
      } else if k == BUFSIZE {
        FittingLinesAreFiltered(AfterLine(s), keep);
        if k < |s| {
          EmptyLineFirst(s[k..], keep);
          assert s[k..][1..] == s[k + 1..];
        }
      } else {
        PiecesNotChosen(s, keep);
        LongLineNotChosen(s, keep);
        FittingLinesAreFiltered(s[BUFSIZE..], keep);
      }
    }
  }

  /** Neither the first 1024 bytes of a longer line that is not chosen nor the rest of it is chosen. */
  lemma PiecesNotChosen(s: seq<Byte>, keep: Choice)
    requires LineLength(s) > BUFSIZE && Sensible(keep) && !keep(s[..LineLength(s)])
    ensures !keep(s[..BUFSIZE]) && !keep(s[BUFSIZE..][..LineLength(s) - BUFSIZE])
  {
    var k := LineLength(s);
    CutLongLine(s);
    PartNotChosen(s[..k], 0, BUFSIZE, keep);
    PartNotChosen(s[..k], BUFSIZE, k, keep);
  }

  lemma LongLineNotChosen(s: seq<Byte>, keep: Choice)
    requires Fit(LinesOf(s), keep) && LineLength(s) > BUFSIZE && !keep(s[..LineLength(s)])
    requires !keep(s[BUFSIZE..][..LineLength(s) - BUFSIZE])
    ensures Fit(LinesOf(s[BUFSIZE..]), keep)
    ensures Filter(LinesOf(s[BUFSIZE..]), keep) == Filter(LinesOf(s), keep)
  {
    CutLongLine(s);
    SameAfterFirstLine(s, s[BUFSIZE..], keep);
    FitAfterFirstLine(s, s[BUFSIZE..], keep);
  }

  lemma PartNotChosen(line: seq<Byte>, from: nat, to: nat, keep: Choice)
    requires Sensible(keep) && from <= to <= |line| && !keep(line)
    ensures !keep(line[from..to])
  {
  }

  /** Two strings that agree after a first line neither of which is chosen. */
  lemma SameAfterFirstLine(s: seq<Byte>, rest: seq<Byte>, keep: Choice)
    requires s != [] && rest != [] && AfterLine(rest) == AfterLine(s)
    requires !keep(s[..LineLength(s)]) && !keep(rest[..LineLength(rest)])
    ensures Filter(LinesOf(rest), keep) == Filter(LinesOf(s), keep)
  {
    UnfoldFilter(s, keep);
    UnfoldFilter(rest, keep);
  }

  lemma FitAfterFirstLine(s: seq<Byte>, rest: seq<Byte>, keep: Choice)
    requires s != [] && rest != [] && AfterLine(rest) == AfterLine(s)
    requires Fit(LinesOf(s), keep) && !keep(rest[..LineLength(rest)])
    ensures Fit(LinesOf(rest), keep)
  {
    UnfoldFit(s, keep);
    UnfoldFit(rest, keep);
  }

  lemma {:induction false} HitsAreShort(s: seq<Byte>, keep: Choice)
    ensures forall i :: 0 <= i < |Hits(s, keep)| ==> |Hits(s, keep)[i]| <= BUFSIZE
    decreases |s|
  {
    if s != [] {
      HitsAreShort(if LineLength(s) < BUFSIZE then AfterLine(s) else s[BUFSIZE..], keep);
    }
  }

  lemma {:induction false} ChosenIsFiltered(lines: seq<seq<Byte>>, keep: Choice, i: nat)
    requires i < |lines| && keep(lines[i])
    ensures lines[i] in Filter(lines, keep)
  {
    if i > 0 {
      ChosenIsFiltered(lines[1..], keep, i - 1);
    }
  }

  /** For any sensible choice of lines: the buffer search prints exactly the chosen lines if and
      only if each of them is at most 1024 bytes long. */
  lemma BufferSearchIsFilterIff(s: seq<Byte>, keep: Choice)
    requires Sensible(keep)
    ensures Hits(s, keep) == Filter(LinesOf(s), keep) <==> Fit(LinesOf(s), keep)
  {
    if Fit(LinesOf(s), keep) {
      FittingLinesAreFiltered(s, keep);
    } else {
      var lines := LinesOf(s);
      var i :| 0 <= i < |lines| && keep(lines[i]) && |lines[i]| > BUFSIZE;
      ChosenIsFiltered(lines, keep, i);
      HitsAreShort(s, keep);
    }
  }

  lemma PartOfLine(line: seq<Byte>, from: nat, to: nat, pattern: seq<Byte>)
    requires from <= to <= |line| && pattern != [] && Contains(line[from..to], pattern)
    ensures Contains(line, pattern)
  {
    var i :| 0 <= i <= to - from && OccursAt(line[from..to], pattern, i);
    SliceOfSlice(line, from, to, i, i + |pattern|);
    assert OccursAt(line, pattern, from + i);
  }

  lemma FindingIsSensible(pattern: seq<Byte>)
    ensures Sensible(Finding(pattern))
  {
    forall line: seq<Byte>, from, to | 0 <= from <= to <= |line| && Found(line[from..to], pattern)
      ensures Found(line, pattern)
    {
      PartOfLine(line, from, to, pattern);
    }
  }

  lemma {:induction false} SameFilter(lines: seq<seq<Byte>>, f: Choice, g: Choice)
    requires forall line :: f(line) == g(line)
    ensures Filter(lines, f) == Filter(lines, g)
  {
    if lines != [] {
      SameFilter(lines[1..], f, g);
    }
  }

  /** Every line that contains the pattern fits the buffer, and the pattern can be found. */
  predicate Searchable(lines: seq<seq<Byte>>, pattern: seq<Byte>) {
    forall i :: 0 <= i < |lines| && Contains(lines[i], pattern) ==> |lines[i]| <= BUFSIZE && Findable(pattern)
  }

  lemma {:induction false} NoneKept(lines: seq<seq<Byte>>, keep: Choice)
    requires forall i :: 0 <= i < |lines| ==> !keep(lines[i])
    ensures Filter(lines, keep) == []
  {
    if lines != [] {
      NoneKept(lines[1..], keep);
    }
  }

  /** A pattern that is empty or starts with a byte of 128 or more prints nothing. */
  lemma {:induction false} UnfindablePrintsNothing(s: seq<Byte>, pattern: seq<Byte>)
    requires !Findable(pattern)
    ensures Hits(s, Finding(pattern)) == []
    decreases |s|
  {
    if s != [] {
      UnfindablePrintsNothing(if LineLength(s) < BUFSIZE then AfterLine(s) else s[BUFSIZE..], pattern);
    }
  }

  /** That is right if and only if no line contains it. */
  lemma UnfindableIsRightIff(s: seq<Byte>, pattern: seq<Byte>)
    requires !Findable(pattern)
    ensures Hits(s, Finding(pattern)) == Filter(LinesOf(s), Containing(pattern)) <==> Searchable(LinesOf(s), pattern)
  {
    var lines, keep := LinesOf(s), Containing(pattern);
    UnfindablePrintsNothing(s, pattern);
    if Searchable(lines, pattern) {
      NoneKept(lines, keep);
    } else {
      var i :| 0 <= i < |lines| && Contains(lines[i], pattern);
      ChosenIsFiltered(lines, keep, i);
    }
  }

  /** For every file and every pattern: the program finds exactly the lines that contain the
      pattern, in order, if and only if each of those lines is at most 1024 bytes long and the
      pattern, if there are any, is not empty and starts with a byte below 128. */
  lemma GrepIsLineFilterIff(s: seq<Byte>, pattern: seq<Byte>)
    ensures Hits(s, Finding(pattern)) == Filter(LinesOf(s), Containing(pattern)) <==> Searchable(LinesOf(s), pattern)
  {
    if Findable(pattern) {
      FindingIsSensible(pattern);
      BufferSearchIsFilterIff(s, Finding(pattern));
      SameFilter(LinesOf(s), Finding(pattern), Containing(pattern));
    } else {
      UnfindableIsRightIff(s, pattern);
    }
  }

  lemma OneLine(s: seq<Byte>)
    requires s != [] && NEWLINE !in s
    ensures LinesOf(s) == [s]
  {
    assert s[..|s|] == s;
    LineLengthIs(s, |s|);
    assert LinesOf([]) == [];
  }

  /** A line of 1025 bytes that contains the pattern is not printed as one line. */
  lemma LongLineFails()
    ensures var s: seq<Byte> := seq(1025, _ => 97);
            Hits(s, Finding([97])) != Filter(LinesOf(s), Containing([97]))
  {
    var s: seq<Byte> := seq(1025, _ => 97);
    OneLine(s);
    assert OccursAt(s, [97], 0);
    assert Contains(LinesOf(s)[0], [97]);
    GrepIsLineFilterIff(s, [97]);
  }

  /** An empty line contains the empty pattern, and nothing is printed for it. */
  lemma EmptyPatternFails()
    ensures Hits([NEWLINE], Finding([])) != Filter(LinesOf([NEWLINE]), Containing([]))
  {
    LineLengthIs([NEWLINE], 0);
    assert LinesOf([NEWLINE])[0] == [];
    assert OccursAt([], [], 0);
    assert Contains(LinesOf([NEWLINE])[0], []);
    GrepIsLineFilterIff([NEWLINE], []);
  }

  /** The one-byte line 200 is not found by the pattern 200. */
  lemma HighByteFails()
    ensures Hits([200], Finding([200])) != Filter(LinesOf([200]), Containing([200]))
  {
    OneLine([200]);
    assert OccursAt([200], [200], 0);
    assert Contains(LinesOf([200])[0], [200]);
    GrepIsLineFilterIff([200], [200]);
  }
}
