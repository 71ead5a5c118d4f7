/** Names, lookup and directory listing of fs/ece391_fs.c and fs/fs.c, on the string routines of
    lib/lib.c. */
module Directory {
  import opened Common
  import opened FileSystem

  // ---------------------------------------------------------------------------
  // C strings
  // ---------------------------------------------------------------------------

  /** The characters before the first NUL, `n` at most. */
  function CString(s: seq<Byte>, n: nat): (r: seq<Byte>)
    ensures |r| <= n && |r| <= |s| && r == s[..|r|] && 0 !in r
    ensures |r| == n || |r| == |s| || s[|r|] == 0
  {
    if n == 0 || s == [] || s[0] == 0 then [] else [s[0]] + CString(s[1..], n - 1)
  }

  /** The first `n` characters may be read: there are that many, or a NUL comes first. */
  predicate Terminated(s: seq<Byte>, n: nat) {
    |s| >= n || 0 in s
  }

  /** A name padded with NULs to a fixed width. */
  function Padded(name: seq<Byte>, n: nat): (r: seq<Byte>)
    requires |name| <= n
    ensures |r| == n && r[..|name|] == name && forall k :: |name| <= k < n ==> r[k] == 0
  {
    name + seq(n - |name|, _ => 0)
  }

  lemma CStringIs(s: seq<Byte>, n: nat, r: seq<Byte>)
    requires |r| <= n && |r| <= |s| && r == s[..|r|] && 0 !in r
    requires |r| == n || |r| == |s| || s[|r|] == 0
    ensures CString(s, n) == r
  {
  }

  /** A byte as the `int8_t` of the source's strings. */
  function Signed8(b: Byte): (r: int)
    ensures -128 <= r < 128 && (b - r == 0 || b - r == 256)
  {
    if b < 128 then b else b - 256
  }

  /** The strings agree before index `i` and differ there. */
  predicate DifferFirstAt(s1: seq<Byte>, s2: seq<Byte>, n: nat, i: nat) {
    i < n && i < |s1| && i < |s2| && s1[..i] == s2[..i] && 0 !in s1[..i] && s1[i] != s2[i]
  }

  /** `strncmp` */
  method Strncmp(s1: seq<Byte>, s2: seq<Byte>, n: nat) returns (r: int)
    requires Terminated(s1, n) && Terminated(s2, n)
    ensures r == 0 <==> CString(s1, n) == CString(s2, n)
    ensures r != 0 ==> exists i: nat :: DifferFirstAt(s1, s2, n, i) && r == Signed8(s1[i]) - Signed8(s2[i])
  {
    for i := 0 to n
      invariant i <= |s1| && i <= |s2| && s1[..i] == s2[..i] && 0 !in s1[..i]
    {
      InBounds(s1, n, i);
      InBounds(s2, n, i);
      if s1[i] != s2[i] || s1[i] == 0 {
        if s1[i] == s2[i] {
          CStringIs(s1, n, s1[..i]);
          CStringIs(s2, n, s2[..i]);
        } else {
          DifferAt(s1, s2, n, i);
        }
        return Signed8(s1[i]) - Signed8(s2[i]);
      }
    }
    CStringIs(s1, n, s1[..n]);
    CStringIs(s2, n, s2[..n]);
    r := 0;
  }

  lemma InBounds(s: seq<Byte>, n: nat, i: nat)
    requires Terminated(s, n) && i < n && i <= |s| && 0 !in s[..i]
    ensures i < |s|
  {
    assert s[..|s|] == s;
  }

  lemma DifferAt(s1: seq<Byte>, s2: seq<Byte>, n: nat, i: nat)
    requires DifferFirstAt(s1, s2, n, i)
    ensures CString(s1, n) != CString(s2, n)
  {
  }

  /** `strncpy` into a buffer of `n` bytes. */
  method Strncpy(dest: array<Byte>, src: seq<Byte>, n: nat)
    requires Terminated(src, n) && n <= dest.Length
    modifies dest
    ensures dest[..n] == Padded(CString(src, n), n)
    ensures forall k :: n <= k < dest.Length ==> dest[k] == old(dest[k])
  {
    var i := 0;
    while i < n && src[i] != 0
      invariant 0 <= i <= n && i <= |src| && 0 !in src[..i]
      invariant i < n ==> i < |src|
      invariant dest[..i] == src[..i]
      invariant forall k :: n <= k < dest.Length ==> dest[k] == old(dest[k])
    {
      dest[i] := src[i];
      i := i + 1;
      if i < n { InBounds(src, n, i); }
    }
    CStringIs(src, n, src[..i]);
    ghost var m := i;
    while i < n
      invariant m <= i <= n
      invariant dest[..m] == src[..m]
      invariant forall k :: m <= k < i ==> dest[k] == 0
      invariant forall k :: n <= k < dest.Length ==> dest[k] == old(dest[k])
    {
      dest[i] := 0;
      i := i + 1;
    }
    assert dest[..n] == dest[..m] + dest[m..n];
  }

  // ---------------------------------------------------------------------------
  // Lookup
  // ---------------------------------------------------------------------------

  function NameOf(e: Dentry): seq<Byte> {
    CString(e.name, MAX_FILE_NAME_LENGTH)
  }

  /** A directory entry as the read functions copy it out: the bytes after the NUL are cleared. */
  function Copied(e: Dentry): Dentry {
    e.(name := Padded(NameOf(e), MAX_FILE_NAME_LENGTH))
  }

  /** What the read functions promise of the entry they copy out: its type, its inode, and its name
      up to the first NUL with NULs from there on. */
  predicate IsCopy(d: Dentry, e: Dentry) {
    && d.fileType == e.fileType && d.inode == e.inode
    && |d.name| == |e.name| == MAX_FILE_NAME_LENGTH
    && forall k :: 0 <= k < MAX_FILE_NAME_LENGTH ==> d.name[k] == if 0 in e.name[..k + 1] then 0 else e.name[k]
  }

  lemma CopiedIsCopy(e: Dentry)
    requires |e.name| == MAX_FILE_NAME_LENGTH
    ensures IsCopy(Copied(e), e)
  {
    var n := |NameOf(e)|;
    forall k | 0 <= k < MAX_FILE_NAME_LENGTH
      ensures Copied(e).name[k] == if 0 in e.name[..k + 1] then 0 else e.name[k]
    {
      if k < n {
        assert forall i :: 0 <= i <= k ==> e.name[..k + 1][i] == NameOf(e)[i];
      } else {
        assert e.name[..k + 1][n] == 0;
      }
    }
  }

  /** The entry a name denotes: the first whose name agrees with it on 32 characters. */
  ghost predicate Denotes(img: Image, name: seq<Byte>, i: nat) {
    && i < |img.entries|
    && NameOf(img.entries[i]) == CString(name, MAX_FILE_NAME_LENGTH)
    && forall k :: 0 <= k < i ==> NameOf(img.entries[k]) != CString(name, MAX_FILE_NAME_LENGTH)
  }

  method CopyEntry(e: Dentry) returns (d: Dentry)
    requires |e.name| == MAX_FILE_NAME_LENGTH
    ensures d == Copied(e) && IsCopy(d, e)
  {
    CopiedIsCopy(e);
    var name := new Byte[MAX_FILE_NAME_LENGTH];
    Strncpy(name, e.name, MAX_FILE_NAME_LENGTH);
    d := Dentry(name[..], e.fileType, e.inode);
    assert name[..MAX_FILE_NAME_LENGTH] == name[..];
  }

  /** The test of the lookup loop: `!strncmp (name, e.name, 32)`. */
  method SameName(name: seq<Byte>, e: Dentry) returns (same: bool)
    requires 0 in name && |e.name| == MAX_FILE_NAME_LENGTH
    ensures same <==> NameOf(e) == CString(name, MAX_FILE_NAME_LENGTH)
  {
    var differs := Strncmp(name, e.name, MAX_FILE_NAME_LENGTH);
    same := differs == 0;
  }

  /** `read_dentry_by_name` */
  method ReadDentryByName(img: Image, name: seq<Byte>) returns (d: Option<Dentry>)
    requires WellFormed(img) && 0 in name
    ensures d.None? <==> forall i: nat :: !Denotes(img, name, i)
    ensures forall i: nat :: Denotes(img, name, i) ==> d == Some(Copied(img.entries[i])) && IsCopy(d.value, img.entries[i])
  {
    for i := 0 to |img.entries|
      invariant forall k :: 0 <= k < i ==> NameOf(img.entries[k]) != CString(name, MAX_FILE_NAME_LENGTH)
    {
      var same := SameName(name, img.entries[i]);
      if same {
        var found := CopyEntry(img.entries[i]);
        assert Denotes(img, name, i);
        assert forall k: nat :: Denotes(img, name, k) ==> k == i;
        return Some(found);
      }
    }
    d := None;
  }

  /** `read_dentry_by_index` */
  method ReadDentryByIndex(img: Image, index: nat) returns (d: Option<Dentry>)
    requires WellFormed(img)
    ensures d == if index < |img.entries| then Some(Copied(img.entries[index])) else None
    ensures d.Some? ==> IsCopy(d.value, img.entries[index])
  {
    if index >= |img.entries| {
      return None;
    }
    var found := CopyEntry(img.entries[index]);
    d := Some(found);
  }

  /** The lookup of `read_file_by_name`. */
  method FindInode(img: Image, name: seq<Byte>) returns (inode: Option<nat>)
    requires WellFormed(img) && 0 in name
    ensures inode.None? <==> forall i: nat :: !Denotes(img, name, i)
    ensures forall i: nat :: Denotes(img, name, i) ==> inode == Some(img.entries[i].inode)
  {
    var found := ReadDentryByName(img, name);
    inode := if found.None? then None else Some(found.value.inode);
  }

  /** `read_file_by_name`, which the loader uses: the start of the file the name denotes, or -1
      if it denotes none or that file cannot be read that far. */
  method ReadFileByName(img: Image, name: seq<Byte>, buf: array<Byte>, base: nat, nbytes: nat) returns (res: int)
    requires WellFormed(img) && 0 in name && nbytes < TWO_32 && base + nbytes <= buf.Length
    modifies buf
    ensures (forall i: nat :: !Denotes(img, name, i)) ==> res == -1
    ensures forall i: nat :: Denotes(img, name, i) ==> (res == -1 <==> ReadFails(img, img.entries[i].inode, 0, nbytes))
    ensures forall i: nat :: Denotes(img, name, i) && res != -1 ==>
              && img.entries[i].inode < |img.inodes|
              && res == Min(nbytes, img.inodes[img.entries[i].inode].length)
              && Holds(buf[..], base, img, img.inodes[img.entries[i].inode], 0, res)
    ensures forall k :: 0 <= k < buf.Length && !(base <= k < base + nbytes) ==> buf[k] == old(buf[k])
    ensures res >= 0 ==> forall k :: base + res <= k < buf.Length ==> buf[k] == old(buf[k])
  {
    var inode := FindInode(img, name);
    if inode.None? {
      return -1;
    }
    ReachIsBounded(img, inode.value, 0, nbytes);
    res := ReadData(img, inode.value, 0, buf, base, nbytes);
  }

  // ---------------------------------------------------------------------------
  // Listing
  // ---------------------------------------------------------------------------

  /** An open directory: the entry to be listed next. */
  class OpenDirectory {
    var position: nat

    constructor ()
      ensures position == 0
    {
      position := 0;
    }

    /** `dir_read`: the next name, or nothing for ever once all have been read.  A fault is the copy
        without bound that a negative count leads to; the call is not followed past it. */
    method DirRead(img: Image, nbytes: int) returns (out: seq<Byte>, fault: bool)
      requires WellFormed(img)
      modifies this
      ensures old(position) >= |img.entries| ==> out == [] && position == old(position)
      ensures old(position) < |img.entries| ==> position == old(position) + 1
      ensures fault <==> nbytes < 0 && old(position) < |img.entries|
      ensures !fault && old(position) < |img.entries| ==>
                out == Copied(img.entries[old(position)]).name[..Min(nbytes, MAX_FILE_NAME_LENGTH)]
    {
      var d := ReadDentryByIndex(img, position);
      if d.None? {
        return [], false;
      }
      position := position + 1;
      var n := MAX_FILE_NAME_LENGTH;
      if n > nbytes {
        n := nbytes;
      }
      if n < 0 {
        return [], true;
      }
      return d.value.name[..n], false;
    }
  }

  ghost predicate DistinctNames(img: Image) {
    forall i, j :: 0 <= i < j < |img.entries| ==> NameOf(img.entries[i]) != NameOf(img.entries[j])
  }

  /** A listed name, with the NUL a caller puts after its 32 bytes, denotes the entry it was
      listed from, also when the name fills all 32 bytes, if and only if no earlier entry has
      the same name. */
  lemma ListedNameDenotesIff(img: Image, i: nat)
    requires WellFormed(img) && i < |img.entries|
    ensures Denotes(img, Copied(img.entries[i]).name + [0], i) <==>
            forall k :: 0 <= k < i ==> NameOf(img.entries[k]) != NameOf(img.entries[i])
  {
    var name := NameOf(img.entries[i]);
    var listed := Copied(img.entries[i]).name + [0];
    assert listed[..|name|] == name;
    CStringIs(listed, MAX_FILE_NAME_LENGTH, name);
  }

  method LookUpListed(img: Image, name: seq<Byte>, ghost i: nat) returns (d: Option<Dentry>)
    requires WellFormed(img) && i < |img.entries| && name == Copied(img.entries[i]).name
    ensures DistinctNames(img) ==> d.Some? && IsCopy(d.value, img.entries[i])
  {
    ListedNameDenotesIff(img, i);
    d := ReadDentryByName(img, name + [0]);
  }

  /** The names of the first entries, in order. */
  ghost predicate Listed(img: Image, names: seq<seq<Byte>>) {
    |names| <= |img.entries| && forall i :: 0 <= i < |names| ==> names[i] == Copied(img.entries[i]).name
  }

  /** The first entries, in order, as looked up. */
  ghost predicate LookedUp(img: Image, found: seq<Option<Dentry>>) {
    |found| <= |img.entries| && forall i :: 0 <= i < |found| ==> found[i].Some? && IsCopy(found[i].value, img.entries[i])
  }

  /** One turn of the listing loop. */
  method NextListed(img: Image, name: seq<Byte>, names: seq<seq<Byte>>, found: seq<Option<Dentry>>)
    returns (moreNames: seq<seq<Byte>>, moreFound: seq<Option<Dentry>>)
    requires WellFormed(img) && |names| == |found| < |img.entries| && name == Copied(img.entries[|names|]).name
    requires Listed(img, names) && (DistinctNames(img) ==> LookedUp(img, found))
    ensures |moreNames| == |moreFound| == |names| + 1
    ensures Listed(img, moreNames) && (DistinctNames(img) ==> LookedUp(img, moreFound))
  {
    var d := LookUpListed(img, name, |names|);
    moreNames, moreFound := names + [name], found + [d];
  }

  /** The listing loop of the `ls` and `grep` programs followed by a lookup of each name: every
      entry is listed once and in order, and with distinct names each lookup gives back the
      entry that was listed. */
  method ListAndLookUp(img: Image) returns (names: seq<seq<Byte>>, found: seq<Option<Dentry>>)
    requires WellFormed(img)
    ensures |names| == |found| == |img.entries|
    ensures Listed(img, names)
    ensures DistinctNames(img) ==> LookedUp(img, found)
  {
    var dir := new OpenDirectory();
    names, found := [], [];
    var name, fault := dir.DirRead(img, MAX_FILE_NAME_LENGTH);
    while name != []
      invariant fresh(dir) && |names| == |found| <= |img.entries|
      invariant name == [] ==> |names| == |img.entries|
      invariant name != [] ==> dir.position == |names| + 1 <= |img.entries| && name == Copied(img.entries[|names|]).name
      invariant Listed(img, names) && (DistinctNames(img) ==> LookedUp(img, found))
      decreases |img.entries| - |names|
    {
      names, found := NextListed(img, name, names, found);
      name, fault := dir.DirRead(img, MAX_FILE_NAME_LENGTH);
    }
  }
}
