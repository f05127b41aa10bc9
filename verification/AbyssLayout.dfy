/** Where abyssfs.c keeps things in its 64 x 4096 bytes: the inode table in blocks 1 to 8, 64 bytes an
    inode, and the data in blocks 9 to 63. */
module AbyssLayout {
  import opened Bytes
  import opened DirRecords
  import opened AbyssSpec

  const DISK_SIZE := 0x4_0000
  const INODE_SIZE := 64

  predicate Disk(d: seq<byte>)
  {
    |d| == DISK_SIZE
  }

  /** get_inode's pointer, as an offset into the disk. */
  function InodeOffset(i: nat): nat
  {
    BLOCK_SIZE + INODE_SIZE * i
  }

  lemma {:induction false} InodeOffsetInTable(i: nat)
    requires i < MAX_INODES
    ensures (1 + i / (BLOCK_SIZE / INODE_SIZE)) * BLOCK_SIZE + i % (BLOCK_SIZE / INODE_SIZE) * INODE_SIZE == InodeOffset(i)
    ensures InodeOffset(i) + INODE_SIZE <= FIRST_DATA * BLOCK_SIZE
  {
  }

  function InodeAt(d: seq<byte>, i: nat): Inode
    requires Disk(d) && i < MAX_INODES
  {
    var o := InodeOffset(i);
    Inode(U32(d, o), U32(d, o + 4), U32(d, o + 8))
  }

  function BlockAt(d: seq<byte>, n: nat): seq<byte>
    requires Disk(d) && n < TOTAL_BLOCKS
  {
    if n < FIRST_DATA then [] else d[n * BLOCK_SIZE..(n + 1) * BLOCK_SIZE]
  }

  function Inodes(d: seq<byte>): (s: seq<Inode>)
    requires Disk(d)
    ensures |s| == MAX_INODES
  {
    seq(MAX_INODES, i requires 0 <= i < MAX_INODES => InodeAt(d, i))
  }

  function Blocks(d: seq<byte>): (s: seq<seq<byte>>)
    requires Disk(d)
    ensures |s| == TOTAL_BLOCKS
  {
    seq(TOTAL_BLOCKS, n requires 0 <= n < TOTAL_BLOCKS => BlockAt(d, n))
  }

  /** The decoded state of a disk. */
  function Decode(d: seq<byte>, used: set<nat>, free: int): (fs: Fs)
    requires Disk(d)
    ensures Shape(fs)
  {
    Fs(Inodes(d), Blocks(d), used, free)
  }

  lemma {:induction false} InodeWords(d: seq<byte>, i: nat)
    requires Disk(d) && i < MAX_INODES
    ensures var o := InodeOffset(i);
            && o + INODE_SIZE <= FIRST_DATA * BLOCK_SIZE
            && Inodes(d)[i] == Inode(U32(d, o), U32(d, o + 4), U32(d, o + 8))
  {
  }

  lemma {:induction false} BlockIs(d: seq<byte>, n: nat)
    requires Disk(d) && FIRST_DATA <= n < TOTAL_BLOCKS
    ensures Blocks(d)[n] == BlockAt(d, n) && |BlockAt(d, n)| == BLOCK_SIZE
  {
  }

  lemma {:induction false} BlockSlice(d: seq<byte>, n: nat, from: nat, to: nat)
    requires Disk(d) && FIRST_DATA <= n < TOTAL_BLOCKS && from <= to <= BLOCK_SIZE
    ensures |BlockAt(d, n)| == BLOCK_SIZE
    ensures BlockAt(d, n)[from..to] == d[n * BLOCK_SIZE + from..n * BLOCK_SIZE + to]
    ensures to == BLOCK_SIZE ==> BlockAt(d, n)[from..] == d[n * BLOCK_SIZE + from..n * BLOCK_SIZE + to]
  {
  }

  // ---- writes inside a data block ----

  lemma {:induction false} WriteInBlock(d: seq<byte>, n: nat, off: nat, x: seq<byte>)
    requires Disk(d) && FIRST_DATA <= n < TOTAL_BLOCKS && off + |x| <= BLOCK_SIZE
    ensures var d' := Splice(d, n * BLOCK_SIZE + off, x);
            && Inodes(d') == Inodes(d)
            && Blocks(d') == Blocks(d)[n := Splice(BlockAt(d, n), off, x)]
  {
    hide Splice;
    var d' := Splice(d, n * BLOCK_SIZE + off, x);
    forall i: nat | i < MAX_INODES
      ensures InodeAt(d', i) == InodeAt(d, i)
    {
    }
    var b, b' := BlockAt(d, n), BlockAt(d', n);
    assert b' == Splice(b, off, x);
    forall m: nat | m < TOTAL_BLOCKS && m != n
      ensures BlockAt(d', m) == BlockAt(d, m)
    {
    }
  }

  // ---- writes inside the inode table ----

  lemma {:induction false} WriteInTable(d: seq<byte>, i: nat, off: nat, x: seq<byte>)
    requires Disk(d) && i < MAX_INODES && off + |x| <= INODE_SIZE
    ensures var d' := Splice(d, InodeOffset(i) + off, x);
            && Blocks(d') == Blocks(d)
            && (forall j :: 0 <= j < MAX_INODES && j != i ==> Inodes(d')[j] == Inodes(d)[j])
  {
    hide Splice;
    var d' := Splice(d, InodeOffset(i) + off, x);
    forall m: nat | m < TOTAL_BLOCKS
      ensures BlockAt(d', m) == BlockAt(d, m)
    {
    }
  }

  /** Storing the mode, size or block word of an inode. */
  lemma {:induction false} WriteWord(d: seq<byte>, i: nat, off: nat, v: nat)
    requires Disk(d) && i < MAX_INODES && off in {0, 4, 8} && v < WORD
    ensures var d' := Splice(d, InodeOffset(i) + off, LE32(v));
            var n := Inodes(d)[i];
            && Blocks(d') == Blocks(d)
            && Inodes(d') ==
               Inodes(d)[i := if off == 0 then n.(mode := v) else if off == 4 then n.(size := v) else n.(block := v)]
  {
    hide Splice, LE32;
    var x := LE32(v);
    var d' := Splice(d, InodeOffset(i) + off, x);
    WriteInTable(d, i, off, x);
    var o := InodeOffset(i);
    assert d'[o + off..o + off + 4] == x;
    WordRoundTrip(d', o + off, v);
    assert U32(d', o) == if off == 0 then v else U32(d, o);
    assert U32(d', o + 4) == if off == 4 then v else U32(d, o + 4);
    assert U32(d', o + 8) == if off == 8 then v else U32(d, o + 8);
  }

  lemma {:induction false} ClearInode(d: seq<byte>, i: nat)
    requires Disk(d) && i < MAX_INODES
    ensures var d' := Splice(d, InodeOffset(i), Zeros(INODE_SIZE));
            && Blocks(d') == Blocks(d) && Inodes(d') == Inodes(d)[i := Inode(0, 0, 0)]
  {
    hide Splice;
    WriteInTable(d, i, 0, Zeros(INODE_SIZE));
    ZeroBytes(INODE_SIZE);
  }

  // ---- reading directory records off the disk ----

  lemma {:induction false} BlockByte(d: seq<byte>, n: nat, k: nat)
    requires Disk(d) && FIRST_DATA <= n < TOTAL_BLOCKS && k < BLOCK_SIZE
    ensures |BlockAt(d, n)| == BLOCK_SIZE && BlockAt(d, n)[k] == d[n * BLOCK_SIZE + k]
  {
  }

  /** The name field of a record, read as a C string straight off the disk, is the name of the entry. */
  lemma {:induction false} RecordOnDisk(d: seq<byte>, n: nat, p: nat)
    requires Disk(d) && FIRST_DATA <= n < TOTAL_BLOCKS && GoodRecord(BlockAt(d, n), p)
    ensures var b, at := BlockAt(d, n), n * BLOCK_SIZE + p;
            && |b| == BLOCK_SIZE
            && d[at + 4] == b[p + 4] && d[at + 5] == b[p + 5]
            && U32(d, at) == EntryAt(b, p).inode
            && 0 in d[at + 6..] && Text(d[at + 6..]) == EntryAt(b, p).name
  {
    var b, at := BlockAt(d, n), n * BLOCK_SIZE + p;
    var len, m := b[p + 4], d[at + 6..];
    assert m[len] == b[p + 6 + len] == 0;
    assert forall k :: 0 <= k < len ==> m[k] == b[p + 6 + k];
    forall k | 0 <= k < len
      ensures m[k] != 0
    {
      assert b[p + 6 + k] != 0;
    }
    assert m[..len] == b[p + 6..p + 6 + len];
    TextLenIs(m, len);
  }

  lemma {:induction false} ChainByte(d: seq<byte>, n: nat, p: nat)
    requires Disk(d) && FIRST_DATA <= n < TOTAL_BLOCKS && Chain(BlockAt(d, n), p)
    ensures p + 6 <= BLOCK_SIZE == |BlockAt(d, n)| && BlockAt(d, n)[p + 5] == d[n * BLOCK_SIZE + p + 5]
  {
    hide Chain;
    Unfold(BlockAt(d, n), p);
  }

  lemma {:induction false} FindAtEnd(b: seq<byte>, p: nat, w: seq<byte>)
    requires Chain(b, p) && b[p + 5] == 0
    ensures FindAt(b, p, w) == p
  {
  }

  /** One step of a walker over the directory block `n`, at a record that does not end the chain. */
  lemma {:induction false} WalkStep(d: seq<byte>, n: nat, p: nat, w: seq<byte>)
    requires Disk(d) && FIRST_DATA <= n < TOTAL_BLOCKS && Chain(BlockAt(d, n), p)
    requires n * BLOCK_SIZE + p + 5 < |d| && d[n * BLOCK_SIZE + p + 5] != 0
    ensures var b, at := BlockAt(d, n), n * BLOCK_SIZE + p;
            var q := p + d[at + 5];
            && GoodRecord(b, p) && U32(d, at) == EntryAt(b, p).inode
            && 0 in d[at + 6..] && Text(d[at + 6..]) == EntryAt(b, p).name
            && p < q && q + 6 <= BLOCK_SIZE && Chain(b, q)
            && FindAt(b, p, w) == if EntryAt(b, p).name == w then p else FindAt(b, q, w)
  {
    hide Chain, BlockAt, EntryAt;
    ChainByte(d, n, p);
    Unfold(BlockAt(d, n), p);
    RecordOnDisk(d, n, p);
  }

  lemma {:induction false} LastStep(b: seq<byte>, p: nat)
    requires Chain(b, p) && b[p + 5] != 0
    ensures Next(b, p) + 6 <= |b| && Chain(b, Next(b, p))
    ensures LastAt(b, p) == if b[Next(b, p) + 5] == 0 then p else LastAt(b, Next(b, p))
  {
    hide Chain;
    Unfold(b, p);
  }

  /** The three writes of create_file to the block `n`: cut the last record, clear, store. */
  lemma {:induction false} AppendWrites(d: seq<byte>, n: nat, l: nat, rec: byte, at: nat, x: seq<byte>)
    requires Disk(d) && FIRST_DATA <= n < TOTAL_BLOCKS && l + 5 < at && at + |x| <= BLOCK_SIZE
    ensures var s, b := n * BLOCK_SIZE, BlockAt(d, n);
            var d1 := Splice(d, s + (l + 5), [rec]);
            var d2 := Splice(d1, s + at, Zeros(BLOCK_SIZE - at));
            var d3 := Splice(d2, s + at, x);
            && |b| == BLOCK_SIZE
            && Inodes(d3) == Inodes(d)
            && Blocks(d3) == Blocks(d)[n := Splice(Splice(Splice(b, l + 5, [rec]), at, Zeros(BLOCK_SIZE - at)), at, x)]
  {
    hide Splice, Fill, Inodes, Blocks, BlockAt;
    var s, b, z := n * BLOCK_SIZE, BlockAt(d, n), Zeros(BLOCK_SIZE - at);
    BlockIs(d, n);
    ZeroBytes(BLOCK_SIZE - at);
    var d1 := Splice(d, s + (l + 5), [rec]);
    var d2 := Splice(d1, s + at, z);
    WriteInBlock(d, n, l + 5, [rec]);
    BlockIs(d1, n);
    WriteInBlock(d1, n, at, z);
    BlockIs(d2, n);
    WriteInBlock(d2, n, at, x);
    assert Blocks(Splice(d2, s + at, x)) == Blocks(d)[n := Splice(BlockAt(d2, n), at, x)];
  }

  lemma {:induction false} ListStep(d: seq<byte>, n: nat, p: nat)
    requires Disk(d) && FIRST_DATA <= n < TOTAL_BLOCKS && Chain(BlockAt(d, n), p)
    requires n * BLOCK_SIZE + p + 5 < |d|
    ensures var b, at := BlockAt(d, n), n * BLOCK_SIZE + p;
            var q := p + d[at + 5];
            if d[at + 5] == 0 then Entries(b, p) == [] else
              && 0 in d[at + 6..] && p < q && q + 6 <= BLOCK_SIZE && Chain(b, q)
              && Entries(b, p) == [Entry(U32(d, at), Text(d[at + 6..]))] + Entries(b, q)
  {
    hide Chain, Entries, BlockAt, U32;
    ChainByte(d, n, p);
    Unfold(BlockAt(d, n), p);
    if d[n * BLOCK_SIZE + p + 5] != 0 {
      WalkStep(d, n, p, []);
    }
  }

  // ---- the zeroed disk ----

  lemma {:induction false} ZeroDisk()
    ensures Disk(Zeros(DISK_SIZE))
    ensures Inodes(Zeros(DISK_SIZE)) == seq(MAX_INODES, _ => Inode(0, 0, 0))
    ensures Blocks(Zeros(DISK_SIZE)) == seq(TOTAL_BLOCKS, n => if n < FIRST_DATA then [] else Zeros(BLOCK_SIZE))
  {
    var d := Zeros(DISK_SIZE);
    ZeroBytes(DISK_SIZE);
    forall n: nat | FIRST_DATA <= n < TOTAL_BLOCKS
      ensures BlockAt(d, n) == Zeros(BLOCK_SIZE)
    {
    }
    assert forall i: nat :: i < MAX_INODES ==> InodeAt(d, i) == Inode(0, 0, 0);
  }
}
