/** The read-only file system of fs/ece391_fs.c and fs/fs.c. */
module FileSystem {
  import opened Common

  const BLOCK_SIZE := 4096
  const BLOCKS_PER_INODE := 1023
  const MAX_FILE_NAME_LENGTH := 32
  const MAX_DIRECTORY_ENTRIES := 63

  datatype Dentry = Dentry(name: seq<Byte>, fileType: nat, inode: nat)

  datatype Inode = Inode(length: nat, blocks: seq<nat>)

  /** The boot block's counts are the lengths of the three sequences. */
  datatype Image = Image(entries: seq<Dentry>, inodes: seq<Inode>, data: seq<seq<Byte>>)

  /** Sizes as laid out on disk; block numbers are not assumed to be in range. */
  predicate WellFormed(img: Image) {
    && |img.entries| <= MAX_DIRECTORY_ENTRIES
    && (forall i :: 0 <= i < |img.entries| ==> |img.entries[i].name| == MAX_FILE_NAME_LENGTH)
    && (forall i :: 0 <= i < |img.inodes| ==> |img.inodes[i].blocks| == BLOCKS_PER_INODE)
    && (forall i :: 0 <= i < |img.inodes| ==> img.inodes[i].length <= BLOCKS_PER_INODE * BLOCK_SIZE)
    && (forall i :: 0 <= i < |img.data| ==> |img.data[i]| == BLOCK_SIZE)
  }

  // ---------------------------------------------------------------------------
  // What a file is
  // ---------------------------------------------------------------------------

  /** Bytes `from` to `to` of a file lie in blocks that exist. */
  ghost predicate Readable(img: Image, node: Inode, from: nat, to: nat) {
    forall i :: from <= i < to ==> i / BLOCK_SIZE < |node.blocks| && node.blocks[i / BLOCK_SIZE] < |img.data|
  }

  /** Bytes `from` to `to` of the concatenated blocks: byte `i` is byte `i % 4096` of block `i / 4096`. */
  ghost function Slice(img: Image, node: Inode, from: nat, to: nat): (s: seq<Byte>)
    requires WellFormed(img) && from <= to && Readable(img, node, from, to)
    ensures |s| == to - from
  {
    seq(to - from, i requires 0 <= i < to - from =>
      img.data[node.blocks[(from + i) / BLOCK_SIZE]][(from + i) % BLOCK_SIZE])
  }

  /** The file's blocks one after the other, as many of them as are asked for. */
  ghost function Blocks(img: Image, node: Inode, n: nat): seq<seq<Byte>>
    requires n <= |node.blocks| && forall i :: 0 <= i < n ==> node.blocks[i] < |img.data|
  {
    seq(n, i requires 0 <= i < n => img.data[node.blocks[i]])
  }

  lemma {:induction false} BlocksAreLong(parts: seq<seq<Byte>>)
    requires forall k :: 0 <= k < |parts| ==> |parts[k]| == BLOCK_SIZE
    ensures |Concat(parts)| == BLOCK_SIZE * |parts|
  {
    if parts != [] {
      BlocksAreLong(parts[1..]);
    }
  }

  lemma {:induction false} ByteOfBlock(parts: seq<seq<Byte>>, q: nat, r: nat)
    requires q < |parts| && r < BLOCK_SIZE && forall k :: 0 <= k < |parts| ==> |parts[k]| == BLOCK_SIZE
    ensures |Concat(parts)| == BLOCK_SIZE * |parts| && Concat(parts)[BLOCK_SIZE * q + r] == parts[q][r]
    decreases q
  {
    BlocksAreLong(parts);
    if q > 0 {
      ByteOfBlock(parts[1..], q - 1, r);
    }
  }

  /** A slice of a file is that slice of its concatenated blocks. */
  lemma SliceIsOfConcatenation(img: Image, node: Inode, from: nat, to: nat, n: nat)
    requires WellFormed(img) && from <= to <= BLOCK_SIZE * n && n <= |node.blocks|
    requires forall i :: 0 <= i < n ==> node.blocks[i] < |img.data|
    ensures Readable(img, node, from, to)
    ensures to <= |Concat(Blocks(img, node, n))| && Slice(img, node, from, to) == Concat(Blocks(img, node, n))[from..to]
  {
    var blocks := Blocks(img, node, n);
    BlocksAreLong(blocks);
    forall i | 0 <= i < to - from
      ensures Slice(img, node, from, to)[i] == Concat(blocks)[from..to][i]
    {
      ByteOfBlock(blocks, (from + i) / BLOCK_SIZE, (from + i) % BLOCK_SIZE);
    }
  }

  function RoundUp(n: nat): (r: nat)
    ensures n <= r < n + BLOCK_SIZE && r % BLOCK_SIZE == 0
  {
    (n + BLOCK_SIZE - 1) / BLOCK_SIZE * BLOCK_SIZE
  }

  /** Where a read of `length` bytes at `offset` ends.  The cap at the end of the file is computed
      in 32 bits: if `offset + length` wraps it does not apply, and the read goes on to the end
      of the file's last block. */
  function ReadEnd(node: Inode, offset: nat, length: nat): nat {
    if offset >= node.length then offset
    else if offset + length >= TWO_32 then RoundUp(node.length)
    else Min(offset + length, node.length)
  }

  /** The read fails: no such inode, or it needs a block that does not exist. */
  ghost predicate ReadFails(img: Image, inode: nat, offset: nat, length: nat) {
    inode >= |img.inodes| || !Readable(img, img.inodes[inode], offset, ReadEnd(img.inodes[inode], offset, length))
  }

  // ---------------------------------------------------------------------------
  // Reading blocks
  // ---------------------------------------------------------------------------

  /** `read_block`: into `buf` from index `at`. */
  method ReadBlock(img: Image, index: nat, offset: nat, buf: array<Byte>, at: nat, length: nat) returns (res: int)
    requires WellFormed(img)
    requires at + length <= buf.Length
    modifies buf
    ensures res == if index >= |img.data| || offset >= BLOCK_SIZE then -1 else Min(length, BLOCK_SIZE - offset)
    ensures forall k :: 0 <= k < buf.Length ==>
              buf[k] == if at <= k < at + res then img.data[index][offset + (k - at)] else old(buf[k])
  {
    if index >= |img.data| {
      return -1;
    }
    if offset >= BLOCK_SIZE {
      return -1;
    }
    var n := length;
    if n > BLOCK_SIZE - offset {
      n := BLOCK_SIZE - offset;
    }
    for i := 0 to n
      invariant forall k :: 0 <= k < buf.Length ==>
                  buf[k] == if at <= k < at + i then img.data[index][offset + (k - at)] else old(buf[k])
    {
      buf[at + i] := img.data[index][offset + i];
    }
    res := n;
  }

  /** Within one block, file positions and block positions advance together. */
  lemma SameBlock(pos: nat, i: nat)
    requires pos % BLOCK_SIZE + i < BLOCK_SIZE
    ensures (pos + i) / BLOCK_SIZE == pos / BLOCK_SIZE
    ensures (pos + i) % BLOCK_SIZE == pos % BLOCK_SIZE + i
  {
  }

  lemma ReadableExtends(img: Image, node: Inode, from: nat, pos: nat, n: nat)
    requires Readable(img, node, from, pos) && from <= pos
    requires pos % BLOCK_SIZE + n <= BLOCK_SIZE
    requires pos / BLOCK_SIZE < |node.blocks| && node.blocks[pos / BLOCK_SIZE] < |img.data|
    ensures Readable(img, node, from, pos + n)
  {
    forall i | from <= i < pos + n
      ensures i / BLOCK_SIZE < |node.blocks| && node.blocks[i / BLOCK_SIZE] < |img.data|
    {
      if i >= pos { SameBlock(pos, i - pos); }
    }
  }

  lemma SliceExtends(img: Image, node: Inode, from: nat, pos: nat, n: nat, bytes: seq<Byte>)
    requires WellFormed(img) && from <= pos && Readable(img, node, from, pos + n)
    requires pos % BLOCK_SIZE + n <= BLOCK_SIZE
    requires pos / BLOCK_SIZE < |node.blocks| && node.blocks[pos / BLOCK_SIZE] < |img.data|
    requires bytes == img.data[node.blocks[pos / BLOCK_SIZE]][pos % BLOCK_SIZE..pos % BLOCK_SIZE + n]
    ensures Readable(img, node, from, pos)
    ensures Slice(img, node, from, pos + n) == Slice(img, node, from, pos) + bytes
  {
    var whole := Slice(img, node, from, pos + n);
    forall i | 0 <= i < |whole|
      ensures whole[i] == (Slice(img, node, from, pos) + bytes)[i]
    {
      if from + i >= pos { SameBlock(pos, from + i - pos); }
    }
  }

  /** How far the copy loop has got: to a block boundary or to the end. */
  predicate Reached(offset: nat, pos: nat, end: nat) {
    offset <= pos <= end && (pos == offset || pos % BLOCK_SIZE == 0 || pos == end)
  }

  /** One turn of the loop moves to the next block boundary or the end, whichever comes first. */
  lemma ChunkAdvances(node: Inode, offset: nat, length: nat, capped: nat, pos: nat, blockNum: nat, blockPos: nat, chunk: nat)
    requires offset < node.length && length < TWO_32 && node.length <= BLOCKS_PER_INODE * BLOCK_SIZE
    requires capped == if offset + length >= TWO_32 then length else Min(length, node.length - offset)
    requires Reached(offset, pos, ReadEnd(node, offset, length))
    requires pos - offset < capped && pos < node.length
    requires pos == blockNum * BLOCK_SIZE + blockPos && blockPos < BLOCK_SIZE
    requires chunk == Min(BLOCK_SIZE - blockPos, capped - (pos - offset))
    ensures chunk > 0 && pos < ReadEnd(node, offset, length)
    ensures Reached(offset, pos + chunk, ReadEnd(node, offset, length))
    ensures (pos + chunk) - offset <= capped
    ensures blockNum == pos / BLOCK_SIZE < BLOCKS_PER_INODE
  {
  }

  /** Where the loop stops is where the read ends. */
  lemma LoopStopsAtEnd(node: Inode, offset: nat, length: nat, capped: nat, pos: nat)
    requires offset < node.length && length < TWO_32 && node.length <= BLOCKS_PER_INODE * BLOCK_SIZE
    requires capped == if offset + length >= TWO_32 then length else Min(length, node.length - offset)
    requires Reached(offset, pos, ReadEnd(node, offset, length)) && pos - offset <= capped
    requires !(pos - offset < capped && pos < node.length)
    ensures pos == ReadEnd(node, offset, length)
  {
  }

  /** From index `base` on, the buffer holds bytes `from` to `to` of the file. */
  ghost predicate Holds(buf: seq<Byte>, base: nat, img: Image, node: Inode, from: nat, to: nat) {
    && WellFormed(img) && from <= to && Readable(img, node, from, to)
    && base + (to - from) <= |buf|
    && buf[base..base + (to - from)] == Slice(img, node, from, to)
  }

  /** The `read_block` call of one turn, and what it adds to the bytes copied so far. */
  method CopyChunk(img: Image, ghost node: Inode, ghost offset: nat, ghost pos: nat, ghost blockNum: nat, index: nat, blockPos: nat,
                   buf: array<Byte>, ghost base: nat, at: nat, n: nat)
    returns (res: int)
    requires Holds(buf[..], base, img, node, offset, pos)
    requires pos == blockNum * BLOCK_SIZE + blockPos && blockPos < BLOCK_SIZE
    requires n > 0 && blockPos + n <= BLOCK_SIZE && blockNum < |node.blocks| && index == node.blocks[blockNum]
    requires at == base + (pos - offset) && at + n <= buf.Length
    modifies buf
    ensures res == if index < |img.data| then n else -1
    ensures res > 0 ==> Holds(buf[..], base, img, node, offset, pos + n)
    ensures forall k :: 0 <= k < buf.Length && !(base <= k < at + n) ==> buf[k] == old(buf[k])
  {
    ghost var before := buf[base..at];
    assert before == Slice(img, node, offset, pos);
    res := ReadBlock(img, index, blockPos, buf, at, n);
    if res > 0 {
      assert buf[at..at + n] == img.data[index][blockPos..blockPos + n];
      assert buf[base..at] == before;
      assert buf[base..at + n] == before + buf[at..at + n];
      ReadableExtends(img, node, offset, pos, n);
      SliceExtends(img, node, offset, pos, n, buf[at..at + n]);
    }
  }

  /** The copy loop of `read_data`, after the checks have capped the length to `n`. */
  method CopyBlocks(img: Image, node: Inode, offset: nat, buf: array<Byte>, base: nat, ghost length: nat, n: nat, ghost end: nat)
    returns (written: int)
    requires WellFormed(img) && node in img.inodes && offset < node.length && length < TWO_32
    requires n == if offset + length >= TWO_32 then length else Min(length, node.length - offset)
    requires end == ReadEnd(node, offset, length) && base + (end - offset) <= buf.Length
    modifies buf
    ensures written == -1 <==> !Readable(img, node, offset, end)
    ensures written != -1 ==> written == end - offset <= n
    ensures written != -1 ==> Holds(buf[..], base, img, node, offset, offset + written)
    ensures forall k :: 0 <= k < buf.Length && !(base <= k < base + (end - offset)) ==> buf[k] == old(buf[k])
  {
    var blockNum := offset / BLOCK_SIZE;
    var filePos := offset;
    var blockPos := offset % BLOCK_SIZE;
    written := 0;
    while written < n && filePos < node.length
      invariant 0 <= written <= n && filePos == offset + written
      invariant filePos == blockNum * BLOCK_SIZE + blockPos && 0 <= blockPos < BLOCK_SIZE
      invariant Reached(offset, filePos, end)
      invariant Holds(buf[..], base, img, node, offset, filePos)
      invariant forall k :: 0 <= k < buf.Length && !(base <= k < base + written) ==> buf[k] == old(buf[k])
      decreases n - written
    {
      var toCopy := BLOCK_SIZE - blockPos;
      if toCopy > n - written {
        toCopy := n - written;
      }
      ChunkAdvances(node, offset, length, n, filePos, blockNum, blockPos, toCopy);
      var index := node.blocks[blockNum];
      var res := CopyChunk(img, node, offset, filePos, blockNum, index, blockPos, buf, base, base + written, toCopy);
      if res < 0 {
        return -1;
      }
      written := written + res;
      filePos := filePos + res;
      blockPos := blockPos + res;
      if blockPos >= BLOCK_SIZE {
        blockPos := blockPos - BLOCK_SIZE;
        blockNum := blockNum + 1;
      }
    }
    LoopStopsAtEnd(node, offset, length, n, filePos);
  }

  /** How many bytes of the buffer a read may write, whether it then fails or not. */
  function Reach(img: Image, inode: nat, offset: nat, length: nat): nat {
    if inode >= |img.inodes| then 0 else ReadEnd(img.inodes[inode], offset, length) - offset
  }

  /** A read never reaches further than it was asked to. */
  lemma ReachIsBounded(img: Image, inode: nat, offset: nat, length: nat)
    requires WellFormed(img) && length < TWO_32
    ensures Reach(img, inode, offset, length) <= length
  {
  }

  /** `read_data`: into `buf` from index `base`, where there is room for what it writes. */
  method ReadData(img: Image, inode: nat, offset: nat, buf: array<Byte>, base: nat, length: nat) returns (res: int)
    requires WellFormed(img) && offset < TWO_32 && length < TWO_32
    requires base + Reach(img, inode, offset, length) <= buf.Length
    modifies buf
    ensures res == -1 <==> ReadFails(img, inode, offset, length)
    ensures res != -1 ==> res == ReadEnd(img.inodes[inode], offset, length) - offset <= length
    ensures res != -1 ==> buf[base..base + res] == Slice(img, img.inodes[inode], offset, offset + res)
    ensures forall k :: 0 <= k < buf.Length && !(base <= k < base + Reach(img, inode, offset, length)) ==> buf[k] == old(buf[k])
  {
    if inode >= |img.inodes| {
      return -1;
    }
    var node := img.inodes[inode];
    if offset >= node.length {
      return 0;
    }
    var n := length;
    if Unsigned32(length + offset) > node.length {
      n := node.length - offset;
    }
    res := CopyBlocks(img, node, offset, buf, base, length, n, ReadEnd(node, offset, length));
  }

  /** `read_data` returns what it promises, min(length, file length - offset) bytes or 0 past the
      end, if and only if `offset + length` fits in 32 bits or the file fills its last block. */
  lemma ReadMeetsPromiseIff(node: Inode, offset: nat, length: nat)
    requires node.length <= BLOCKS_PER_INODE * BLOCK_SIZE && length < TWO_32
    ensures ReadEnd(node, offset, length) - offset ==
              (if offset >= node.length then 0 else Min(length, node.length - offset)) <==>
            offset >= node.length || offset + length < TWO_32 || node.length % BLOCK_SIZE == 0
  {
    assert RoundUp(node.length) == node.length <==> node.length % BLOCK_SIZE == 0;
  }

  /** The same for `file_read`, whose count is signed: it fails to return the promised number of
      bytes if and only if a negative count is not larger than the position (so that the sum wraps)
      while the position is still inside a file that does not fill its last block. */
  lemma FileReadMeetsPromiseIff(node: Inode, position: nat, nbytes: int)
    requires node.length <= BLOCKS_PER_INODE * BLOCK_SIZE && -0x8000_0000 <= nbytes < 0x8000_0000
    ensures ReadEnd(node, position, Unsigned32(nbytes)) - position ==
              (if position >= node.length then 0 else Min(Unsigned32(nbytes), node.length - position)) <==>
            !(nbytes < 0 <= position + nbytes && position < node.length && node.length % BLOCK_SIZE != 0)
  {
    assert nbytes < 0 ==> Unsigned32(nbytes) == nbytes + TWO_32;
    ReadMeetsPromiseIff(node, position, Unsigned32(nbytes));
  }

  /** An image with one file of 5000 bytes, in two blocks. */
  function TwoBlockFile(): Image {
    Image([], [Inode(5000, seq(BLOCKS_PER_INODE, i => if i == 1 then 1 else 0))],
          [seq(BLOCK_SIZE, _ => 1), seq(BLOCK_SIZE, _ => 2)])
  }

  /** At position 1 of it a count of -1 succeeds and returns 8191 bytes where 4999 are left. */
  lemma NegativeCountReadsPastEnd()
    ensures var img := TwoBlockFile();
            && WellFormed(img) && !ReadFails(img, 0, 1, Unsigned32(-1))
            && Reach(img, 0, 1, Unsigned32(-1)) == 8191 && img.inodes[0].length - 1 == 4999
  {
  }

  /** The call itself. */
  method ReadPastEnd() returns (res: int)
    ensures res == 8191
  {
    NegativeCountReadsPastEnd();
    var img := TwoBlockFile();
    var f := new OpenFile(0);
    var buf := new Byte[8191];
    f.position := 1;
    res := f.FileRead(img, buf, 0, -1);
  }

  // ---------------------------------------------------------------------------
  // Files as sequences
  // ---------------------------------------------------------------------------

  ghost predicate Intact(img: Image, inode: nat) {
    inode < |img.inodes| && Readable(img, img.inodes[inode], 0, img.inodes[inode].length)
  }

  ghost function File(img: Image, inode: nat): (s: seq<Byte>)
    requires WellFormed(img) && Intact(img, inode)
    ensures |s| == img.inodes[inode].length
  {
    Slice(img, img.inodes[inode], 0, img.inodes[inode].length)
  }

  /** How many of the first `n` bytes of a file can be read. */
  ghost function Limit(img: Image, node: Inode, n: nat): (r: nat)
    ensures r <= n && Readable(img, node, 0, r)
    ensures forall to :: 0 <= to <= n && Readable(img, node, 0, to) ==> to <= r
  {
    if Readable(img, node, 0, n) then n else Limit(img, node, n - 1)
  }

  /** What can be read of a file from its start. */
  ghost function Legible(img: Image, inode: nat): (s: seq<Byte>)
    requires WellFormed(img)
    ensures inode < |img.inodes| ==> |s| == Limit(img, img.inodes[inode], img.inodes[inode].length)
    ensures inode >= |img.inodes| ==> s == []
    ensures Intact(img, inode) ==> s == File(img, inode)
    ensures Intact(img, inode) <==> inode < |img.inodes| && |s| == img.inodes[inode].length
  {
    if inode >= |img.inodes| then [] else Slice(img, img.inodes[inode], 0, Limit(img, img.inodes[inode], img.inodes[inode].length))
  }

  /** Whatever a read brings from inside the legible part is that part of it. */
  lemma ReadIsLegible(img: Image, inode: nat, from: nat, to: nat)
    requires WellFormed(img) && inode < |img.inodes| && from <= |Legible(img, inode)|
    requires from <= to <= img.inodes[inode].length && Readable(img, img.inodes[inode], from, to)
    ensures to <= |Legible(img, inode)|
    ensures Slice(img, img.inodes[inode], from, to) == Legible(img, inode)[from..to]
  {
    var node := img.inodes[inode];
    ReadableJoins(img, node, from, to);
    InnerSlice(img, node, from, to, Limit(img, node, node.length));
  }

  lemma ReadableJoins(img: Image, node: Inode, from: nat, to: nat)
    requires Readable(img, node, from, to) && from <= Limit(img, node, node.length)
    ensures Readable(img, node, 0, to)
  {
  }

  lemma InnerSlice(img: Image, node: Inode, from: nat, to: nat, n: nat)
    requires WellFormed(img) && from <= to <= n && Readable(img, node, 0, n)
    ensures Readable(img, node, from, to)
    ensures Slice(img, node, from, to) == Slice(img, node, 0, n)[from..to]
  {
  }

  /** A read fails only close to the end of the legible part. */
  lemma FailureIsNear(img: Image, inode: nat, position: nat, n: nat)
    requires WellFormed(img) && position <= |Legible(img, inode)| && 0 < n < 0x8000_0000 && ReadFails(img, inode, position, n)
    ensures |Legible(img, inode)| - position < n && !Intact(img, inode)
  {
    if inode < |img.inodes| {
      var node := img.inodes[inode];
      var end := ReadEnd(node, position, n);
      if end <= |Legible(img, inode)| {
        assert Readable(img, node, position, end);
      }
    }
  }

  lemma SliceOfFile(img: Image, inode: nat, from: nat, to: nat)
    requires WellFormed(img) && Intact(img, inode) && from <= to <= img.inodes[inode].length
    ensures Readable(img, img.inodes[inode], from, to)
    ensures Slice(img, img.inodes[inode], from, to) == File(img, inode)[from..to]
  {
  }

  /** An open regular file: the parts of `file_t` that `file_read` uses. */
  class OpenFile {
    const inode: nat
    var position: nat

    constructor (inode: nat)
      ensures this.inode == inode && position == 0
    {
      this.inode := inode;
      position := 0;
    }

    /** `file_read` */
    method FileRead(img: Image, buf: array<Byte>, base: nat, nbytes: int) returns (res: int)
      requires WellFormed(img) && position < TWO_32 && base + Reach(img, inode, position, Unsigned32(nbytes)) <= buf.Length
      modifies this, buf
      ensures res == -1 <==> ReadFails(img, inode, old(position), Unsigned32(nbytes))
      ensures res == -1 ==> position == old(position)
      ensures res != -1 ==> position == old(position) + res == ReadEnd(img.inodes[inode], old(position), Unsigned32(nbytes))
      ensures res != -1 ==> 0 <= res <= Unsigned32(nbytes) && Holds(buf[..], base, img, img.inodes[inode], old(position), position)
      ensures forall k :: 0 <= k < buf.Length && !(base <= k < base + Reach(img, inode, old(position), Unsigned32(nbytes))) ==> buf[k] == old(buf[k])
    {
      res := ReadData(img, inode, position, buf, base, Unsigned32(nbytes));
      if res < 0 {
        return -1;
      }
      position := position + res;
    }
  }

  /** What successive reads of the given sizes return. */
  function ReadsOf(file: seq<Byte>, position: nat, sizes: seq<nat>): seq<seq<Byte>>
    requires position <= |file|
    decreases |sizes|
  {
    if sizes == [] then []
    else
      var end := Min(position + sizes[0], |file|);
      [file[position..end]] + ReadsOf(file, end, sizes[1..])
  }

  function Sum(sizes: seq<nat>): nat {
    if sizes == [] then 0 else sizes[0] + Sum(sizes[1..])
  }

  /** However a file is cut into reads, they concatenate to the part of it they asked for. */
  lemma {:induction false} ReadsConcatenate(file: seq<Byte>, position: nat, sizes: seq<nat>)
    requires position <= |file|
    ensures |ReadsOf(file, position, sizes)| == |sizes|
    ensures Concat(ReadsOf(file, position, sizes)) == file[position..Min(position + Sum(sizes), |file|)]
    decreases |sizes|
  {
    if sizes != [] {
      var end := Min(position + sizes[0], |file|);
      ReadsConcatenate(file, end, sizes[1..]);
      ConcatCons(file[position..end], ReadsOf(file, end, sizes[1..]));
      JoinSlices(file, position, end, Min(end + Sum(sizes[1..]), |file|));
    }
  }

  /** A read of positive size that returns nothing is at the end. */
  lemma {:induction false} EmptyReadIsAtEnd(file: seq<Byte>, position: nat, sizes: seq<nat>)
    requires position <= |file| && sizes != [] && sizes[|sizes| - 1] > 0
    requires |ReadsOf(file, position, sizes)| == |sizes| && ReadsOf(file, position, sizes)[|sizes| - 1] == []
    ensures position + Sum(sizes) >= |file|
    decreases |sizes|
  {
    var end := Min(position + sizes[0], |file|);
    if |sizes| > 1 {
      assert ReadsOf(file, position, sizes)[1..] == ReadsOf(file, end, sizes[1..]);
      EmptyReadIsAtEnd(file, end, sizes[1..]);
    } else {
      assert file[position..end] == [];
    }
  }

  /** Reads of any positive sizes up to the first that returns nothing yield the whole file. */
  lemma ReadsUpToZeroAreTheFile(file: seq<Byte>, sizes: seq<nat>)
    requires sizes != [] && sizes[|sizes| - 1] > 0
    requires |ReadsOf(file, 0, sizes)| == |sizes| && ReadsOf(file, 0, sizes)[|sizes| - 1] == []
    ensures Concat(ReadsOf(file, 0, sizes)) == file
  {
    ReadsConcatenate(file, 0, sizes);
    EmptyReadIsAtEnd(file, 0, sizes);
  }

  lemma ConcatCons(first: seq<Byte>, rest: seq<seq<Byte>>)
    ensures Concat([first] + rest) == first + Concat(rest)
  {
    assert ([first] + rest)[1..] == rest;
  }

  /** Successive `file_read` calls of the given sizes on an intact file. */
  method ReadInPieces(img: Image, inode: nat, sizes: seq<nat>) returns (chunks: seq<seq<Byte>>)
    requires WellFormed(img) && Intact(img, inode)
    requires forall i :: 0 <= i < |sizes| ==> sizes[i] < 0x8000_0000
    ensures chunks == ReadsOf(File(img, inode), 0, sizes)
  {
    var f := new OpenFile(inode);
    ghost var file := File(img, inode);
    chunks := [];
    for i := 0 to |sizes|
      invariant fresh(f) && f.inode == inode && f.position <= |file|
      invariant ReadsOf(file, 0, sizes) == chunks + ReadsOf(file, f.position, sizes[i..])
    {
      var chunk := NextPiece(f, img, sizes[i]);
      assert sizes[i..][1..] == sizes[i + 1..];
      AppendAssociates(chunks, [chunk], ReadsOf(file, f.position, sizes[i + 1..]));
      chunks := chunks + [chunk];
    }
  }

  method NextPiece(f: OpenFile, img: Image, nbytes: nat) returns (chunk: seq<Byte>)
    requires WellFormed(img) && Intact(img, f.inode) && nbytes < 0x8000_0000
    requires f.position <= img.inodes[f.inode].length
    modifies f
    ensures f.position == Min(old(f.position) + nbytes, img.inodes[f.inode].length)
    ensures chunk == File(img, f.inode)[old(f.position)..f.position]
  {
    ghost var from := f.position;
    SliceOfFile(img, f.inode, from, Min(from + nbytes, img.inodes[f.inode].length));
    var buf := new Byte[nbytes];
    ReachIsBounded(img, f.inode, f.position, nbytes);
    var cnt := f.FileRead(img, buf, 0, nbytes);
    chunk := buf[..cnt];
    assert buf[..][0..0 + cnt] == chunk;
  }

  /** The read loop of the `cat` program: everything it prints is the file, and it fails exactly
      when the file is not intact, after printing everything up to the read that failed. */
  method Cat(img: Image, inode: nat) returns (ok: bool, out: seq<Byte>)
    requires WellFormed(img)
    ensures ok <==> Intact(img, inode)
    ensures ok ==> out == File(img, inode)
    ensures !ok && inode < |img.inodes| ==>
              && Readable(img, img.inodes[inode], 0, |out|) && out == Slice(img, img.inodes[inode], 0, |out|)
              && ReadFails(img, inode, |out|, 1024)
  {
    var f := new OpenFile(inode);
    var buf := new Byte[1024];
    out := [];
    while true
      invariant fresh(f) && fresh(buf) && f.inode == inode
      invariant f.position == |out|
      invariant f.position > 0 ==> inode < |img.inodes| && f.position <= img.inodes[inode].length
      invariant inode < |img.inodes| ==> Readable(img, img.inodes[inode], 0, f.position)
      invariant inode < |img.inodes| ==> out == Slice(img, img.inodes[inode], 0, f.position)
      decreases if inode < |img.inodes| then img.inodes[inode].length - f.position else 0
    {
      ghost var from := f.position;
      ReachIsBounded(img, inode, f.position, 1024);
      var cnt := f.FileRead(img, buf, 0, 1024);
      if cnt == -1 {
        ok := false;
        return;
      }
      if cnt == 0 {
        break;
      }
      SliceJoins(img, img.inodes[inode], from, f.position);
      out := out + buf[..cnt];
    }
    ok := true;
  }

  lemma SliceJoins(img: Image, node: Inode, mid: nat, to: nat)
    requires WellFormed(img) && mid <= to && Readable(img, node, 0, mid) && Readable(img, node, mid, to)
    ensures Readable(img, node, 0, to)
    ensures Slice(img, node, 0, to) == Slice(img, node, 0, mid) + Slice(img, node, mid, to)
  {
  }
}
