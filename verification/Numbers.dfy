/** Number printing of lib/lib.c: `itoa`, `strrev` and the `%#x` conversion of `printf`. */
module Numbers {
  import opened Common

  const ZERO: Byte := 48  // '0'

  /** The lookup table "0123456789ABCDEFGHIJKLMNOPQRSTUVWXYZ". */
  function DigitChar(d: nat): (ch: Byte)
    requires d < 36
  {
    if d < 10 then 48 + d else 55 + d
  }

  const LOOKUP := "0123456789ABCDEFGHIJKLMNOPQRSTUVWXYZ"

  lemma DigitCharIsLookup(d: nat)
    requires d < 36
    ensures |LOOKUP| == 36 && DigitChar(d) == LOOKUP[d] as int
  {
  }

  /** The value of a digit character. */
  function DigitValue(ch: Byte): int {
    if 48 <= ch < 58 then ch - 48 else if 65 <= ch < 91 then ch - 55 else -1
  }

  /** What a string of digits denotes, read from the left. */
  function Read(s: seq<Byte>, radix: nat): int {
    if s == [] then 0 else Read(s[..|s| - 1], radix) * radix + DigitValue(s[|s| - 1])
  }

  predicate IsNumeral(s: seq<Byte>, radix: nat) {
    s != [] && forall i :: 0 <= i < |s| ==> 0 <= DigitValue(s[i]) < radix
  }

  /** The digits of a number, most significant first. */
  function Digits(value: nat, radix: nat): (s: seq<Byte>)
    requires 2 <= radix <= 36
    ensures |s| > 0
    decreases value
  {
    if value < radix then [DigitChar(value)]
    else Digits(value / radix, radix) + [DigitChar(value % radix)]
  }

  lemma UnfoldDigits(value: nat, radix: nat)
    requires 2 <= radix <= 36 && value >= radix
    ensures var s := Digits(value, radix);
            && s[..|s| - 1] == Digits(value / radix, radix)
            && s[|s| - 1] == DigitChar(value % radix)
            && s[0] == Digits(value / radix, radix)[0]
    ensures 0 < value / radix < value && value == value / radix * radix + value % radix
  {
    QuotientBelow(value, radix, value);
  }

  lemma {:induction false} DigitsReadBack(value: nat, radix: nat)
    requires 2 <= radix <= 36
    ensures Read(Digits(value, radix), radix) == value
    decreases value
  {
    if value < radix {
      assert Digits(value, radix)[..0] == [];
    } else {
      UnfoldDigits(value, radix);
      DigitsReadBack(value / radix, radix);
    }
  }

  lemma {:induction false} DigitsAreNumeral(value: nat, radix: nat)
    requires 2 <= radix <= 36
    ensures IsNumeral(Digits(value, radix), radix)
    ensures Digits(value, radix)[0] == ZERO <==> value == 0
    decreases value
  {
    if value >= radix {
      UnfoldDigits(value, radix);
      DigitsAreNumeral(value / radix, radix);
      var s := Digits(value, radix);
      assert forall i :: 0 <= i < |s| - 1 ==> s[i] == Digits(value / radix, radix)[i];
    }
  }

  /** A value below radix^n has at most n digits. */
  lemma {:induction false} DigitCount(value: nat, radix: nat, n: nat)
    requires 2 <= radix <= 36 && n > 0 && value < Power(radix, n)
    ensures |Digits(value, radix)| <= n
    decreases n
  {
    assert Power(radix, 1) == radix * Power(radix, 0) == radix;
    if value >= radix {
      QuotientBelow(value, radix, Power(radix, n - 1));
      DigitCount(value / radix, radix, n - 1);
    }
  }

  function Power(b: nat, n: nat): nat {
    if n == 0 then 1 else b * Power(b, n - 1)
  }

  lemma QuotientBelow(value: nat, radix: nat, bound: nat)
    requires radix > 0 && value < radix * bound
    ensures value / radix < bound
  {
    Monotone(bound, value / radix, radix);
  }

  lemma Monotone(a: nat, b: nat, c: nat)
    ensures a <= b ==> a * c <= b * c
  {
  }

  function Reverse(s: seq<Byte>): (r: seq<Byte>)
    ensures |r| == |s|
    ensures forall i :: 0 <= i < |s| ==> r[i] == s[|s| - 1 - i]
  {
    seq(|s|, i requires 0 <= i < |s| => s[|s| - 1 - i])
  }

  /** `strrev` on the `len` characters from `base`. */
  method Strrev(buf: array<Byte>, base: nat, len: nat)
    requires base + len <= buf.Length
    modifies buf
    ensures buf[base..base + len] == Reverse(old(buf[base..base + len]))
    ensures forall k :: 0 <= k < buf.Length && !(base <= k < base + len) ==> buf[k] == old(buf[k])
  {
    var beg: int := base;
    var end: int := base + len - 1;
    while beg < end
      invariant base <= beg <= base + len && end == 2 * base + len - 1 - beg
      invariant forall k :: base <= k < base + len ==>
                  buf[k] == if beg <= k <= end then old(buf[k]) else old(buf[2 * base + len - 1 - k])
      invariant forall k :: 0 <= k < buf.Length && !(base <= k < base + len) ==> buf[k] == old(buf[k])
    {
      var tmp := buf[end];
      buf[end] := buf[beg];
      buf[beg] := tmp;
      beg := beg + 1;
      end := end - 1;
    }
    ghost var was := old(buf[base..base + len]);
    forall k | 0 <= k < len
      ensures buf[base..base + len][k] == Reverse(was)[k]
    {
      assert was[len - 1 - k] == old(buf[2 * base + len - 1 - (base + k)]);
    }
  }

  /** `written` holds, reversed, the digits of `value` that are no longer in `newval`. */
  ghost predicate Peeled(value: nat, newval: nat, radix: nat, written: seq<Byte>)
    requires 2 <= radix <= 36
  {
    Digits(value, radix) == Higher(newval, radix) + Reverse(written)
  }

  lemma PeelDigit(value: nat, newval: nat, radix: nat, written: seq<Byte>)
    requires 2 <= radix <= 36 && newval > 0 && Peeled(value, newval, radix, written)
    ensures Peeled(value, newval / radix, radix, written + [DigitChar(newval % radix)])
    ensures newval / radix < newval
  {
    var d := DigitChar(newval % radix);
    LowestDigit(newval, radix);
    AppendAssociates(Higher(newval / radix, radix), [d], Reverse(written));
    ReverseSnoc(written, d);
  }

  /** The digits of what is left after the lowest digit has been taken; none of nothing. */
  ghost function Higher(q: nat, radix: nat): seq<Byte>
    requires 2 <= radix <= 36
  {
    if q > 0 then Digits(q, radix) else []
  }

  lemma LowestDigit(newval: nat, radix: nat)
    requires 2 <= radix <= 36 && newval > 0
    ensures newval / radix < newval
    ensures Digits(newval, radix) == Higher(newval / radix, radix) + [DigitChar(newval % radix)]
  {
    if newval >= radix {
      UnfoldDigits(newval, radix);
    } else {
      QuotientBelow(newval, radix, 1);
      assert newval % radix == newval;
    }
  }

  lemma ReverseSnoc(s: seq<Byte>, d: Byte)
    ensures Reverse(s + [d]) == [d] + Reverse(s)
  {
  }

  /** `itoa` at `base`: digits come out least significant first and are then reversed in place. */
  method Itoa(value: nat, buf: array<Byte>, base: nat, radix: nat) returns (len: nat)
    requires 2 <= radix <= 36
    requires base + |Digits(value, radix)| < buf.Length
    modifies buf
    ensures len == |Digits(value, radix)| && buf[base..base + len] == Digits(value, radix) && buf[base + len] == 0
    ensures forall k :: 0 <= k < base ==> buf[k] == old(buf[k])
  {
    if value == 0 {
      buf[base] := ZERO;
      buf[base + 1] := 0;
      return 1;
    }
    len := WriteReversed(value, buf, base, radix);
    buf[base + len] := 0;
    ghost var reversed := buf[base..base + len];
    assert Reverse(reversed) == Digits(value, radix);
    Strrev(buf, base, len);
  }

  /** The digit loop of `itoa`. */
  method WriteReversed(value: nat, buf: array<Byte>, base: nat, radix: nat) returns (len: nat)
    requires 2 <= radix <= 36 && value > 0
    requires base + |Digits(value, radix)| < buf.Length
    modifies buf
    ensures base + len < buf.Length && Digits(value, radix) == Reverse(buf[base..base + len])
    ensures forall k :: 0 <= k < base ==> buf[k] == old(buf[k])
  {
    var newval: nat := value;
    len := 0;
    ghost var written: seq<Byte> := [];
    while newval > 0
      invariant len == |written| && Peeled(value, newval, radix, written)
      invariant base + len < buf.Length && buf[base..base + len] == written
      invariant forall k :: 0 <= k < base ==> buf[k] == old(buf[k])
      decreases newval
    {
      var ch, rest := NextDigit(value, newval, radix, written);
      written := written + [ch];
      buf[base + len] := ch;
      len := len + 1;
      newval := rest;
    }
  }

  /** One turn of the division: the character for the lowest digit, and what is left. */
  method NextDigit(ghost value: nat, newval: nat, radix: nat, ghost written: seq<Byte>) returns (ch: Byte, rest: nat)
    requires 2 <= radix <= 36 && newval > 0 && Peeled(value, newval, radix, written)
    ensures rest < newval && Peeled(value, rest, radix, written + [ch]) && |written| + 1 <= |Digits(value, radix)|
  {
    PeelDigit(value, newval, radix, written);
    ch, rest := DigitChar(newval % radix), newval / radix;
    PeeledFits(value, rest, radix, written + [ch]);
  }

  lemma PeeledFits(value: nat, newval: nat, radix: nat, written: seq<Byte>)
    requires 2 <= radix <= 36 && Peeled(value, newval, radix, written)
    ensures |written| <= |Digits(value, radix)|
  {
  }

  /** Reading what `itoa` wrote gives back the value, with no leading zero except for 0. */
  lemma ItoaRoundTrip(value: nat, radix: nat)
    requires 2 <= radix <= 36
    ensures var s := Digits(value, radix);
            && IsNumeral(s, radix) && Read(s, radix) == value
            && (s[0] == ZERO <==> value == 0) && (value == 0 ==> s == [ZERO])
  {
    DigitsReadBack(value, radix);
    DigitsAreNumeral(value, radix);
  }

  lemma {:induction false} LeadingZerosKeepValue(n: nat, s: seq<Byte>, radix: nat)
    ensures Read(seq(n, _ => ZERO) + s, radix) == Read(s, radix)
    decreases |s|, n
  {
    var padded := seq(n, _ => ZERO) + s;
    if s != [] {
      assert padded[..|padded| - 1] == seq(n, _ => ZERO) + s[..|s| - 1];
      LeadingZerosKeepValue(n, s[..|s| - 1], radix);
    } else if n > 0 {
      assert padded[..n - 1] == seq(n - 1, _ => ZERO) + s;
      LeadingZerosKeepValue(n - 1, s, radix);
    } else {
      assert padded == s;
    }
  }

  /** The `%#x` case: exactly eight hexadecimal digits with the value of the argument. */
  method PrintHex(value: nat) returns (printed: seq<Byte>)
    requires value < 0x1_0000_0000
    ensures |printed| == 8 && IsNumeral(printed, 16) && Read(printed, 16) == value
  {
    var convBuf := new Byte[64];
    HexFits(value);
    var start := Itoa(value, convBuf, 8, 16);
    ghost var digits := convBuf[8..8 + start];
    var i := start;
    while i < 8
      invariant start <= i <= 8
      invariant forall k :: start <= k < i ==> convBuf[k] == ZERO
      invariant convBuf[8..8 + start] == digits
    {
      convBuf[i] := ZERO;
      i := i + 1;
    }
    printed := convBuf[start..8 + start];
    assert printed == seq(8 - start, _ => ZERO) + digits;
    DigitsReadBack(value, 16);
    DigitsAreNumeral(value, 16);
    LeadingZerosKeepValue(8 - start, digits, 16);
  }

  lemma HexFits(value: nat)
    requires value < 0x1_0000_0000
    ensures |Digits(value, 16)| <= 8
  {
    assert Power(16, 2) == 256;
    assert Power(16, 4) == 0x1_0000;
    assert Power(16, 6) == 0x100_0000;
    assert Power(16, 8) == 0x1_0000_0000;
    DigitCount(value, 16, 8);
  }
}
