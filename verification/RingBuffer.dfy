/** The circular byte buffer of lib/circular_buffer.c.  Pointers into the backing memory
    are offsets from `data_start`, so `data_start` is 0 and `data_end` is `maxLen`. */
module RingBuffer {
  import opened Common

  /** The position reached from `i` once the end of an `n`-byte backing store has been passed at most once. */
  function Wrap(i: nat, n: nat): (r: nat)
  {
    if i >= n then i - n else i
  }

  /** The `len` bytes starting at `head`, read circularly. */
  ghost function Window(store: seq<Byte>, head: nat, len: nat): (s: seq<Byte>)
    requires len <= |store| && head <= |store|
    ensures |s| == len
    ensures forall i :: 0 <= i < len ==> s[i] == store[Wrap(head + i, |store|)]
  {
    seq(len, i requires 0 <= i < len => store[Wrap(head + i, |store|)])
  }

  /** First index of `val` in `s`, or -1. */
  function FirstIndexOf(s: seq<Byte>, val: Byte): (r: int)
    ensures -1 <= r < |s|
    ensures r >= 0 ==> s[r] == val && val !in s[..r]
    ensures r == -1 <==> val !in s
  {
    if s == [] then -1
    else if s[0] == val then 0
    else
      var r := FirstIndexOf(s[1..], val);
      assert s == [s[0]] + s[1..];
      assert r >= 0 ==> s[..r + 1] == [s[0]] + s[1..][..r];
      if r < 0 then -1 else r + 1
  }

  lemma FirstIndexOfIs(s: seq<Byte>, val: Byte, k: nat)
    requires k < |s| && s[k] == val && val !in s[..k]
    ensures FirstIndexOf(s, val) == k
  {
  }

  class CircularBuffer {
    var maxLen: nat
    var currentLen: nat
    var data: array<Byte>
    var head: nat
    var tail: nat

    ghost predicate Valid()
      reads this
    {
      && data.Length == maxLen
      && currentLen <= maxLen
      && (head < maxLen || head == 0)
      && tail == Wrap(head + currentLen, maxLen)
    }

    /** The buffered bytes, oldest first. */
    ghost function Contents(): (s: seq<Byte>)
      requires Valid()
      reads this, data
      ensures |s| == currentLen
    {
      Window(data[..], head, currentLen)
    }

    constructor (store: array<Byte>)
      ensures Valid() && data == store && maxLen == store.Length
      ensures Contents() == []
    {
      maxLen := store.Length;
      currentLen := 0;
      data := store;
      head := 0;
      tail := 0;
    }

    /** `circular_buffer_init` on a buffer that is already bound to its backing store. */
    method Init(store: array<Byte>)
      modifies this
      ensures Valid() && data == store && maxLen == store.Length
      ensures Contents() == []
    {
      maxLen := store.Length;
      currentLen := 0;
      data := store;
      head := 0;
      tail := 0;
    }

    method Clear()
      requires Valid()
      modifies this
      ensures Valid() && data == old(data) && maxLen == old(maxLen)
      ensures Contents() == []
    {
      currentLen := 0;
      head := 0;
      tail := 0;
    }

    /** Stores a byte at `tail` and advances it. */
    method Store(b: Byte)
      requires data.Length == maxLen && tail < maxLen
      modifies this`tail, data
      ensures data[..] == old(data[..])[old(tail) := b]
      ensures tail == Wrap(old(tail) + 1, maxLen) < maxLen
    {
      data[tail] := b;
      tail := tail + 1;
      if tail >= maxLen {
        tail := 0;
      }
    }

    /** The cap on a put is computed in 32 bits.  It does not apply when the sum wraps to a length
        that looks as if it fitted. */
    ghost predicate CapMisses(len: nat)
      reads this
    {
      currentLen + len >= TWO_32 && currentLen + len - TWO_32 <= maxLen
    }

    /** The cap of `circular_buffer_put`. */
    method Cap(len: nat) returns (n: nat)
      requires currentLen <= maxLen < TWO_32 && len < TWO_32
      ensures n == if CapMisses(len) then len else Min(len, maxLen - currentLen)
      ensures CapMisses(len) <==> currentLen + n > maxLen
    {
      n := len;
      WrapsOnce(currentLen + n);
      if Unsigned32(currentLen + n) > maxLen {
        n := maxLen - currentLen;
      }
    }

    /** The loop of `circular_buffer_put`.  The bytes are appended if they fit; in any case the last
        of them are the last stored, up to `tail`. */
    method CopyIn(input: seq<Byte>, n: nat)
      requires data.Length == maxLen && n <= |input| && currentLen <= maxLen && head <= maxLen
      requires n > 0 ==> head < maxLen && tail < maxLen
      modifies this`tail, data
      ensures currentLen + n <= maxLen && old(tail) == Wrap(head + currentLen, maxLen) ==>
                Appended(data[..], head, tail, currentLen, old(Window(data[..], head, currentLen)), input[..n])
      ensures n > 0 ==> LastStored(data[..], old(tail), tail, input[..n])
    {
      ghost var before := Window(data[..], head, currentLen);
      ghost var fits := currentLen + n <= maxLen && tail == Wrap(head + currentLen, maxLen);
      assert fits ==> before + input[..0] == before;
      for i := 0 to n
        modifies this`tail, data
        invariant n > 0 ==> tail < maxLen
        invariant fits ==> Appended(data[..], head, tail, currentLen, before, input[..i])
        invariant n > 0 ==> LastStored(data[..], old(tail), tail, input[..i])
      {
        ghost var was, at := data[..], tail;
        Store(input[i]);
        StepOver(input, i);
        if fits {
          AppendedSnoc(was, data[..], head, at, currentLen, before, input[..i], input[i]);
        }
        LastStoredSnoc(was, data[..], old(tail), at, input[..i], input[i]);
      }
    }

    /** Appends as much of `input` as fits, if and only if the cap applies.  If it does not, all of
        `input` is taken, whatever was buffered: the length is the wrapped sum and the last bytes
        taken are the ones before `tail`. */
    method Put(input: seq<Byte>) returns (n: nat)
      requires Valid() && maxLen < TWO_32 && |input| < TWO_32
      modifies this, data
      ensures data == old(data) && maxLen == old(maxLen) && head == old(head)
      ensures n == Min(|input|, maxLen - old(currentLen)) <==> !old(CapMisses(|input|))
      ensures !old(CapMisses(|input|)) ==> Valid() && Contents() == old(Contents()) + input[..n]
      ensures old(CapMisses(|input|)) ==>
                n == |input| && currentLen == old(currentLen) + n - TWO_32 && LastStored(data[..], old(tail), tail, input)
    {
      n := Cap(|input|);
      WrapsOnce(currentLen + n);
      CopyIn(input, n);
      WholePrefix(input);
      currentLen := Unsigned32(currentLen + n);
    }

    /** Takes up to `len` bytes from the front. */
    method Get(len: nat) returns (out: seq<Byte>)
      requires Valid()
      modifies this
      ensures Valid() && data == old(data) && maxLen == old(maxLen)
      ensures out == old(Contents())[..Min(len, old(currentLen))]
      ensures Contents() == old(Contents())[Min(len, old(currentLen))..]
    {
      var n := len;
      if n > currentLen {
        n := currentLen;
      }
      out := [];
      ghost var before := Contents();
      for i := 0 to n
        invariant data == old(data) && maxLen == old(maxLen) == data.Length && currentLen == old(currentLen)
        invariant data[..] == old(data[..])
        invariant head < maxLen || head == 0
        invariant head == Wrap(old(head) + i, maxLen)
        invariant tail == old(tail)
        invariant out == before[..i]
      {
        out := out + [data[head]];
        head := head + 1;
        if head >= maxLen {
          head := 0;
        }
      }
      currentLen := currentLen - n;
      WindowDrops(data[..], old(head), old(currentLen), n);
    }

    /** Copies up to `len` bytes from the front, leaving the buffer as it is. */
    method Peek(len: nat) returns (out: seq<Byte>)
      requires Valid()
      ensures out == Contents()[..Min(len, currentLen)]
    {
      var n := len;
      if n > currentLen {
        n := currentLen;
      }
      out := [];
      var addr := head;
      for i := 0 to n
        invariant addr == Wrap(head + i, maxLen) && (addr < maxLen || addr == 0)
        invariant out == Contents()[..i]
      {
        out := out + [data[addr]];
        addr := addr + 1;
        if addr >= maxLen {
          addr := 0;
        }
      }
    }

    method PutByte(b: Byte) returns (n: nat)
      requires Valid()
      modifies this, data
      ensures Valid() && data == old(data) && maxLen == old(maxLen)
      ensures n == if old(currentLen) < maxLen then 1 else 0
      ensures Contents() == old(Contents()) + [b][..n]
    {
      if currentLen >= maxLen {
        return 0;
      }
      ghost var was := data[..];
      Store(b);
      WindowExtends(was, data[..], head, currentLen, b);
      currentLen := currentLen + 1;
      n := 1;
    }

    method GetByte() returns (b: Option<Byte>)
      requires Valid()
      modifies this
      ensures Valid() && data == old(data) && maxLen == old(maxLen)
      ensures old(currentLen) == 0 ==> b == None && Contents() == []
      ensures old(currentLen) > 0 ==> b == Some(old(Contents())[0]) && Contents() == old(Contents())[1..]
    {
      if currentLen == 0 {
        return None;
      }
      b := Some(data[head]);
      head := head + 1;
      if head >= maxLen {
        head := 0;
      }
      currentLen := currentLen - 1;
      WindowDrops(data[..], old(head), old(currentLen), 1);
    }

    method PeekEndByte() returns (b: Option<Byte>)
      requires Valid()
      ensures b == if currentLen == 0 then None else Some(Contents()[currentLen - 1])
    {
      if currentLen == 0 {
        return None;
      }
      var addr: int := tail - 1;
      if addr < 0 {
        addr := maxLen - 1;
      }
      b := Some(data[addr]);
      assert addr == Wrap(head + currentLen - 1, maxLen);
    }

    method RemoveEndByte() returns (n: nat)
      requires Valid()
      modifies this
      ensures Valid() && data == old(data) && maxLen == old(maxLen)
      ensures n == if old(currentLen) == 0 then 0 else 1
      ensures Contents() == old(Contents())[..old(currentLen) - n]
    {
      if currentLen == 0 {
        return 0;
      }
      var t: int := tail - 1;
      if t < 0 {
        t := maxLen - 1;
      }
      tail := t;
      currentLen := currentLen - 1;
      n := 1;
      assert Contents() == old(Contents())[..old(currentLen) - 1];
    }

    method Find(val: Byte) returns (r: int)
      requires Valid()
      ensures r == FirstIndexOf(Contents(), val)
    {
      var addr := head;
      var len := 0;
      while len < currentLen
        invariant 0 <= len <= currentLen
        invariant addr == Wrap(head + len, maxLen) && (addr < maxLen || addr == 0)
        invariant val !in Contents()[..len]
      {
        if data[addr] == val {
          FirstIndexOfIs(Contents(), val, len);
          return len;
        }
        addr := addr + 1;
        if addr >= maxLen {
          addr := 0;
        }
        len := len + 1;
      }
      assert Contents()[..len] == Contents();
      r := -1;
    }
  }

  /** Advancing `head` by `k` drops the first `k` bytes of a window. */
  lemma WindowDrops(store: seq<Byte>, head: nat, len: nat, k: nat)
    requires k <= len <= |store| && (head < |store| || head == 0)
    ensures Window(store, Wrap(head + k, |store|), len - k) == Window(store, head, len)[k..]
  {
    forall i | 0 <= i < len - k
      ensures Window(store, Wrap(head + k, |store|), len - k)[i] == Window(store, head, len)[k..][i]
    {
      assert Wrap(Wrap(head + k, |store|) + i, |store|) == Wrap(head + (k + i), |store|);
    }
  }

  /** Storing a byte just past a window extends that window and keeps what was in it. */
  lemma WindowExtends(was: seq<Byte>, now: seq<Byte>, head: nat, len: nat, b: Byte)
    requires |now| == |was| && len < |was| && head < |was|
    requires now == was[Wrap(head + len, |was|) := b]
    ensures Window(now, head, len + 1) == Window(was, head, len) + [b]
  {
    var w := Window(now, head, len + 1);
    forall i | 0 <= i <= len
      ensures w[i] == (Window(was, head, len) + [b])[i]
    {
      if i < len {
        assert Wrap(head + i, |was|) != Wrap(head + len, |was|);
      }
    }
  }

  // ---------------------------------------------------------------------------
  // What a run of stores leaves
  // ---------------------------------------------------------------------------

  lemma WrapsOnce(sum: nat)
    requires sum < 2 * TWO_32
    ensures Unsigned32(sum) == if sum >= TWO_32 then sum - TWO_32 else sum
  {
  }

  lemma WholePrefix<T>(s: seq<T>)
    ensures s[..|s|] == s
  {
  }

  /** `bytes` have been stored just past the `len` bytes from `head`, which were `before`. */
  ghost predicate Appended(store: seq<Byte>, head: nat, tail: nat, len: nat, before: seq<Byte>, bytes: seq<Byte>) {
    && head <= |store| && len + |bytes| <= |store|
    && tail == Wrap(head + len + |bytes|, |store|)
    && Window(store, head, len + |bytes|) == before + bytes
  }

  lemma AppendedSnoc(was: seq<Byte>, now: seq<Byte>, head: nat, tail: nat, len: nat, before: seq<Byte>, bytes: seq<Byte>, b: Byte)
    requires Appended(was, head, tail, len, before, bytes) && len + |bytes| < |was| && head < |was|
    requires tail < |was| && now == was[tail := b]
    ensures Appended(now, head, Wrap(tail + 1, |was|), len, before, bytes + [b])
  {
    WindowExtends(was, now, head, len + |bytes|, b);
    AppendAssociates(before, bytes, [b]);
  }

  /** The position `k` stores after `tail`. */
  function Advanced(tail: nat, k: nat, n: nat): nat {
    if k == 0 then tail else Wrap(Advanced(tail, k - 1, n) + 1, n)
  }

  /** The last `n` elements, or all if there are fewer. */
  function LastOf(s: seq<Byte>, n: nat): (r: seq<Byte>)
    ensures |r| == Min(|s|, n)
  {
    s[|s| - Min(|s|, n)..]
  }

  /** Where `len` bytes that end just before `tail` start. */
  function Before(tail: nat, len: nat, n: nat): int {
    if tail >= len then tail - len else tail - len + n
  }

  /** The bytes just before `tail`, read circularly. */
  ghost predicate EndsAt(store: seq<Byte>, tail: nat, bytes: seq<Byte>) {
    && |bytes| <= |store| && tail < |store|
    && Window(store, Before(tail, |bytes|, |store|), |bytes|) == bytes
  }

  /** `bytes` have been stored from `start` on, round and round: `tail` has moved on by as many, and
      the last of them, as many as there is room for, are the ones before it. */
  ghost predicate LastStored(store: seq<Byte>, start: nat, tail: nat, bytes: seq<Byte>) {
    tail == Advanced(start, |bytes|, |store|) && EndsAt(store, tail, LastOf(bytes, |store|))
  }

  lemma EndsAtGrows(was: seq<Byte>, now: seq<Byte>, tail: nat, bytes: seq<Byte>, b: Byte)
    requires EndsAt(was, tail, bytes) && |bytes| < |was| && now == was[tail := b]
    ensures EndsAt(now, Wrap(tail + 1, |was|), bytes + [b])
  {
    WindowExtends(was, now, Before(tail, |bytes|, |was|), |bytes|, b);
  }

  lemma EndsAtSlides(was: seq<Byte>, now: seq<Byte>, tail: nat, bytes: seq<Byte>, b: Byte)
    requires EndsAt(was, tail, bytes) && |bytes| == |was| && now == was[tail := b]
    ensures EndsAt(now, Wrap(tail + 1, |was|), bytes[1..] + [b])
  {
    WindowDrops(was, tail, |was|, 1);
    WindowExtends(was, now, Wrap(tail + 1, |was|), |was| - 1, b);
  }

  lemma LastOfSnoc(s: seq<Byte>, b: Byte, n: nat)
    requires n > 0
    ensures LastOf(s + [b], n) == if |s| < n then LastOf(s, n) + [b] else LastOf(s, n)[1..] + [b]
  {
  }

  lemma LastStoredSnoc(was: seq<Byte>, now: seq<Byte>, start: nat, tail: nat, bytes: seq<Byte>, b: Byte)
    requires LastStored(was, start, tail, bytes) && now == was[tail := b]
    ensures LastStored(now, start, Wrap(tail + 1, |was|), bytes + [b])
  {
    LastOfSnoc(bytes, b, |was|);
    if |bytes| < |was| {
      EndsAtGrows(was, now, tail, LastOf(bytes, |was|), b);
    } else {
      EndsAtSlides(was, now, tail, LastOf(bytes, |was|), b);
    }
  }

  /** A whole number of rounds comes back to the same place. */
  lemma {:induction false} RoundsComeBack(tail: nat, k: nat, rounds: nat)
    requires tail < 128 && k < 128
    ensures Advanced(tail, 128 * rounds + k, 128) == if tail + k < 128 then tail + k else tail + k - 128
    decreases rounds, k
  {
    if k > 0 {
      RoundsComeBack(tail, k - 1, rounds);
    } else if rounds > 0 {
      RoundsComeBack(tail, 127, rounds - 1);
    }
  }

  /** One byte buffered of 128, and a put of 2^32 - 1 more: all of them are taken where 127 fit, and
      the buffer is empty afterwards. */
  method PutTakesTooMuch() returns (ring: CircularBuffer, n: nat)
    ensures n == TWO_32 - 1 && ring.Valid() && ring.maxLen == 128 && ring.Contents() == []
  {
    var store := new Byte[128];
    ring := new CircularBuffer(store);
    var _ := ring.PutByte(1);
    RoundsComeBack(ring.tail, 127, TWO_32 / 128 - 1);
    n := ring.Put(seq(TWO_32 - 1, _ => 0));
  }
}
