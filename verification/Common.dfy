/** Types and constants shared by every part of the model. */
module Common {

  type Byte = b: int | 0 <= b < 256

  /** A 16-bit character cell of video memory: character in the low byte, colour in the high byte. */
  type Word = w: int | 0 <= w < 0x1_0000

  datatype Option<+T> = None | Some(value: T)

  const BACKSPACE: Byte := 8
  const TAB: Byte := 9
  const NEWLINE: Byte := 10
  const SPACE: Byte := 32

  const NUM_TERMINALS := 3
  const MAX_PROCESSES := 6
  const KERNEL_PAGE_END := 0x80_0000
  const KEYBOARD_BUFFER_SIZE := 128

  const TWO_32 := 0x1_0000_0000

  /** What a C conversion to `uint32_t` makes of an integer. */
  function Unsigned32(n: int): (r: nat)
    ensures r < 0x1_0000_0000
    ensures 0 <= n < 0x1_0000_0000 ==> r == n
  {
    n % 0x1_0000_0000
  }

  /** It differs from the integer by a multiple of 2^32. */
  lemma Unsigned32IsCongruent(n: int)
    ensures (n - Unsigned32(n)) % TWO_32 == 0
  {
  }

  function Min(a: int, b: int): (r: int)
    ensures r <= a && r <= b && (r == a || r == b)
  {
    if a <= b then a else b
  }

  /** Concatenation of a list of byte strings. */
  function Concat<T>(parts: seq<seq<T>>): seq<T> {
    if parts == [] then [] else parts[0] + Concat(parts[1..])
  }

  lemma {:induction false} ConcatAppend<T>(parts: seq<seq<T>>, more: seq<seq<T>>)
    ensures Concat(parts + more) == Concat(parts) + Concat(more)
  {
    if parts == [] {
      assert parts + more == more;
    } else {
      assert (parts + more)[1..] == parts[1..] + more;
      ConcatAppend(parts[1..], more);
    }
  }

  lemma HeadThenTail<T>(s: seq<T>, t: seq<T>)
    requires s != []
    ensures [s[0]] + (s[1..] + t) == s + t
  {
  }

  lemma SliceOfSlice<T>(s: seq<T>, a: nat, b: nat, i: nat, j: nat)
    requires a <= b <= |s| && i <= j <= b - a
    ensures s[a..b][i..j] == s[a + i..a + j]
  {
    var part := s[a..b];
    forall k | 0 <= k < j - i
      ensures part[i..j][k] == s[a + i..a + j][k]
    {
      assert part[i..j][k] == part[i + k];
    }
  }

  lemma NotInSubslice<T>(s: seq<T>, a: nat, b: nat, i: nat, j: nat, x: T)
    requires a <= i <= j <= b <= |s| && x !in s[a..b]
    ensures x !in s[i..j]
  {
    SliceOfSlice(s, a, b, i - a, j - a);
  }

  lemma JoinSlices<T>(s: seq<T>, a: nat, b: nat, c: nat)
    requires a <= b <= c <= |s|
    ensures s[a..b] + s[b..c] == s[a..c]
  {
  }

  lemma SplitTail<T>(s: seq<T>, a: nat, b: nat)
    requires a <= b <= |s|
    ensures s[a..] == s[a..b] + s[b..]
  {
  }

  /** One element further along. */
  lemma StepOver<T>(s: seq<T>, i: nat)
    requires i < |s|
    ensures s[..i] + [s[i]] == s[..i + 1]
    ensures s[i..][0] == s[i] && s[i..][1..] == s[i + 1..]
  {
  }

  lemma TailOfPrefix<T>(s: seq<T>, k: nat, b: nat)
    requires b <= k <= |s|
    ensures s[b..][..k - b] == s[..k][b..k] == s[b..k]
    ensures s[..k][0..b] == s[..b]
  {
  }

  lemma TailOfTail<T>(s: seq<T>, b: nat, n: nat)
    requires b + n <= |s|
    ensures s[b..][n..] == s[b + n..]
  {
  }

  lemma InitOfSnoc<T>(s: seq<T>, x: T)
    ensures |s + [x]| == |s| + 1 && (s + [x])[..|s|] == s && (s + [x])[|s|] == x
  {
  }

  lemma InitAndLast<T>(s: seq<T>)
    requires s != []
    ensures s == s[..|s| - 1] + [s[|s| - 1]]
  {
  }

  predicate EndsWith<T(==)>(s: seq<T>, tail: seq<T>) {
    |tail| <= |s| && s[|s| - |tail|..] == tail
  }

  lemma EndsWithAppended<T>(s: seq<T>, tail: seq<T>)
    ensures EndsWith(s + tail, tail)
  {
  }

  lemma EndsWithIsTransitive<T>(a: seq<T>, b: seq<T>, c: seq<T>)
    requires EndsWith(a, b) && EndsWith(b, c)
    ensures EndsWith(a, c)
  {
    TailOfTail(a, |a| - |b|, |b| - |c|);
  }

  lemma AppendToEmpty<T>(s: seq<T>)
    ensures [] + s == s
  {
  }

  lemma AppendAssociates<T>(a: seq<T>, b: seq<T>, c: seq<T>)
    ensures a + (b + c) == (a + b) + c
  {
  }

  lemma PrefixSnoc<T>(a: seq<T>, s: seq<T>, i: nat)
    requires i < |s|
    ensures a + s[..i] + [s[i]] == a + s[..i + 1]
  {
  }

  lemma ConcatSnoc<T>(parts: seq<seq<T>>, last: seq<T>)
    ensures Concat(parts + [last]) == Concat(parts) + last
  {
    ConcatAppend(parts, [last]);
    assert [last][1..] == [];
  }
}
