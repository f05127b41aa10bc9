/** AbyssFS as a machine over decoded state: the inode table, the 4096-byte contents of the data blocks,
    the set of blocks marked in the bitmap and the free-block counter of the super block. Each operation of
    abyssfs.c is a function on that state; the class in AbyssFs refines them on the raw bytes. */
module AbyssSpec {
  import opened Bytes
  import opened DirRecords
  import CStrings
  import Tokens

  const BLOCK_SIZE := 4096
  const TOTAL_BLOCKS := 64
  const INODE_BLOCKS := 8
  const FIRST_DATA := 9
  const MAX_INODES := 512
  const ROOT_INODE := 1
  const ROOT_BLOCK := 9
  const DIR_MODE := 0x4000
  const NEW_MODE := 0x1FF
  const PATH_COPY := 255

  datatype Inode = Inode(mode: nat, size: nat, block: nat)

  datatype Fs = Fs(inodes: seq<Inode>, blocks: seq<seq<byte>>, used: set<nat>, free: int)

  predicate Shape(fs: Fs)
  {
    && |fs.inodes| == MAX_INODES && |fs.blocks| == TOTAL_BLOCKS
    && forall n :: FIRST_DATA <= n < TOTAL_BLOCKS ==> |fs.blocks[n]| == BLOCK_SIZE
  }

  // ---- reading the state ----

  /** Inode 0 is handed out by abyssfs_open and never freed. */
  predicate Live(fs: Fs, i: nat)
    requires Shape(fs)
  {
    i < MAX_INODES && (i == 0 || fs.inodes[i].mode != 0)
  }

  predicate DirBit(mode: nat)
  {
    mode / DIR_MODE % 2 == 1
  }

  predicate Dir(fs: Fs, i: nat)
    requires Shape(fs)
  {
    i < MAX_INODES && DirBit(fs.inodes[i].mode)
  }

  /** Can the walkers read the block of inode `i` as a directory? */
  predicate Searchable(fs: Fs, i: nat)
    requires Shape(fs)
  {
    i < MAX_INODES && FIRST_DATA <= fs.inodes[i].block < TOTAL_BLOCKS && Chain(fs.blocks[fs.inodes[i].block], 0)
  }

  /** The entries of directory `i`. */
  function Listing(fs: Fs, i: nat): seq<Entry>
    requires Shape(fs)
  {
    if Searchable(fs, i) then Entries(fs.blocks[fs.inodes[i].block], 0) else []
  }

  /** get_inode_by_path from inode `i` on, component by component; None for NULL. */
  function Walk(fs: Fs, i: nat, words: seq<seq<byte>>): (r: Option<nat>)
    requires Shape(fs) && i < MAX_INODES
    ensures r.Some? ==> r.value < MAX_INODES
    decreases |words|
  {
    if words == [] then Some(i)
    else if !Searchable(fs, i) then None
    else
      var es := Listing(fs, i);
      var k := IndexOf(es, words[0]);
      if k < |es| && es[k].inode < MAX_INODES then Walk(fs, es[k].inode, words[1..]) else None
  }

  /** Every inode searched on the way is a directory, or has no block at all. */
  predicate DirsOnly(fs: Fs, i: nat, words: seq<seq<byte>>)
    requires Shape(fs) && i < MAX_INODES
    decreases |words|
  {
    words == [] || fs.inodes[i].block == 0 ||
    (Dir(fs, i) && Searchable(fs, i) &&
     var es := Listing(fs, i);
     var k := IndexOf(es, words[0]);
     k < |es| ==> es[k].inode < MAX_INODES && DirsOnly(fs, es[k].inode, words[1..]))
  }

  function SkipSlashes(path: seq<byte>): (r: seq<byte>)
    ensures 0 !in path ==> 0 !in r
  {
    if path != [] && path[0] == SLASH then SkipSlashes(path[1..]) else path
  }

  /** The components get_inode_by_path looks up: its copy of the path ends after 255 characters. */
  function PathWords(path: seq<byte>): seq<seq<byte>>
  {
    Tokens.Split(Take(SkipSlashes(path), PATH_COPY), SLASHES)
  }

  function Basename(path: seq<byte>): (r: seq<byte>)
    ensures 0 !in path ==> 0 !in r
  {
    match CStrings.LastIndex(path, SLASH)
    case None => path
    case Some(k) => path[k + 1..]
  }

  /** The components of the current directory; an empty cwd is followed by another NUL. */
  function CwdWords(cwd: seq<byte>): seq<seq<byte>>
  {
    if cwd == [SLASH] || cwd == [] then [] else PathWords(cwd[1..])
  }

  /** The inode of the current directory. */
  function CwdInode(fs: Fs, cwd: seq<byte>): Option<nat>
    requires Shape(fs)
  {
    Walk(fs, ROOT_INODE, CwdWords(cwd))
  }

  // ---- the operations ----

  /** First inode at or after `i` whose mode is zero. */
  function FreeInode(inodes: seq<Inode>, i: nat): (n: nat)
    requires i <= |inodes|
    ensures i <= n <= |inodes|
    ensures n < |inodes| ==> inodes[n].mode == 0
    ensures forall j :: i <= j < n ==> inodes[j].mode != 0
    decreases |inodes| - i
  {
    if i == |inodes| || inodes[i].mode == 0 then i else FreeInode(inodes, i + 1)
  }

  /** alloc_inode; inode number 0 means failure. */
  function AllocInode(fs: Fs): (r: (nat, Fs))
    requires Shape(fs)
    ensures Shape(r.1) && r.0 < MAX_INODES
  {
    var n := FreeInode(fs.inodes, 1);
    if n == MAX_INODES then (0, fs) else (n, fs.(inodes := fs.inodes[n := Inode(NEW_MODE, 0, 0)]))
  }

  /** First block at or after `n` not marked in the bitmap. */
  function ClearBlock(used: set<nat>, n: nat): (b: nat)
    requires n <= TOTAL_BLOCKS
    ensures n <= b <= TOTAL_BLOCKS
    ensures b < TOTAL_BLOCKS ==> b !in used
    ensures forall j :: n <= j < b ==> j in used
    decreases TOTAL_BLOCKS - n
  {
    if n == TOTAL_BLOCKS || n !in used then n else ClearBlock(used, n + 1)
  }

  /** alloc_block; block number 0 means failure. */
  function AllocBlock(fs: Fs): (r: (nat, Fs))
    requires Shape(fs)
    ensures Shape(r.1) && (r.0 == 0 || FIRST_DATA <= r.0 < TOTAL_BLOCKS)
  {
    var b := ClearBlock(fs.used, FIRST_DATA);
    if b == TOTAL_BLOCKS then (0, fs) else (b, fs.(used := fs.used + {b}, free := fs.free - 1))
  }

  /** What create_file stores for this name behind the minimal records of the directory `i` stays in its block. */
  predicate Fits(fs: Fs, i: nat, name: seq<byte>)
    requires Shape(fs)
  {
    && 0 !in name && Searchable(fs, i)
    && Appendable(fs.blocks[fs.inodes[i].block], Entry(i, name))
  }

  /** What create_file needs to know about the current directory. */
  predicate CanEnter(fs: Fs, cwd: seq<byte>, name: seq<byte>)
    requires Shape(fs)
  {
    && DirsOnly(fs, ROOT_INODE, CwdWords(cwd))
    && var d := CwdInode(fs, cwd);
       d.Some? && fs.inodes[d.value].block != 0 ==> Dir(fs, d.value) && Fits(fs, d.value, name)
  }

  /** create_file without its failure cases: the entry goes into the block of directory `d`. */
  function AddEntry(fs: Fs, d: nat, e: Entry): (r: Fs)
    requires Shape(fs) && d < MAX_INODES && e.inode < WORD && Fits(fs, d, e.name)
    ensures Shape(r)
  {
    var b := fs.inodes[d].block;
    fs.(blocks := fs.blocks[b := Appended(fs.blocks[b], e)])
  }

  /** create_file; false for -1. A directory inode without a block is an error. */
  function CreateFile(fs: Fs, cwd: seq<byte>, e: Entry): (r: (bool, Fs))
    requires Shape(fs) && e.inode < WORD && CanEnter(fs, cwd, e.name)
    ensures Shape(r.1)
  {
    var d := CwdInode(fs, cwd);
    if d == None || fs.inodes[d.value].block == 0 then (false, fs) else (true, AddEntry(fs, d.value, e))
  }

  /** abyssfs_create: the inode number behind the new handle, None for NULL. */
  function Create(fs: Fs, cwd: seq<byte>, path: seq<byte>): (r: (Option<nat>, Fs))
    requires Shape(fs)
    requires AllocInode(fs).0 != 0 ==> CanEnter(AllocInode(fs).1, cwd, Basename(SkipSlashes(path)))
    ensures Shape(r.1)
  {
    var (n, fs1) := AllocInode(fs);
    if n == 0 then (None, fs) else
      var (ok, fs2) := CreateFile(fs1, cwd, Entry(n, Basename(SkipSlashes(path))));
      (if ok then Some(n) else None, fs2)
  }

  /** The inode and block mkdir fills in before it enters the name. */
  function MakeDir(fs: Fs, n: nat, b: nat): (r: Fs)
    requires Shape(fs) && n < MAX_INODES && FIRST_DATA <= b < TOTAL_BLOCKS
    ensures Shape(r)
  {
    var mode := fs.inodes[n].mode;
    fs.(inodes := fs.inodes[n := Inode(if DirBit(mode) then mode else mode + DIR_MODE, BLOCK_SIZE, b)],
        blocks := fs.blocks[b := Splice(fs.blocks[b], 0, DotRecords(n))])
  }

  /** The state in which mkdir calls create_file, when both allocations succeed. */
  function MkdirMade(fs: Fs): (r: Option<(nat, Fs)>)
    requires Shape(fs)
    ensures r.Some? ==> r.value.0 < MAX_INODES && Shape(r.value.1)
  {
    var (n, fs1) := AllocInode(fs);
    var (b, fs2) := AllocBlock(fs1);
    if n == 0 || b == 0 then None else Some((n, MakeDir(fs2, n, b)))
  }

  /** abyssfs_mkdir; false for -1. A failure keeps what was allocated before it. */
  function Mkdir(fs: Fs, cwd: seq<byte>, path: seq<byte>): (r: (bool, Fs))
    requires Shape(fs)
    requires var m := MkdirMade(fs); m.Some? ==> CanEnter(m.value.1, cwd, Basename(SkipSlashes(path)))
    ensures Shape(r.1)
  {
    var m := MkdirMade(fs);
    if m == None then (false, AllocInode(fs).1)
    else CreateFile(m.value.1, cwd, Entry(m.value.0, Basename(SkipSlashes(path))))
  }

  /** The block number of the inode, if it has one, is that of a data block. */
  predicate Writable(fs: Fs, i: nat)
    requires Shape(fs) && i < MAX_INODES
  {
    fs.inodes[i].block == 0 || FIRST_DATA <= fs.inodes[i].block < TOTAL_BLOCKS
  }

  /** abyssfs_write through a handle on inode `i`: at most one block, always from its start. */
  function Write(fs: Fs, i: nat, data: seq<byte>): (r: (nat, Fs))
    requires Shape(fs) && i < MAX_INODES && Writable(fs, i)
    ensures Shape(r.1)
  {
    var count := Min(|data|, BLOCK_SIZE);
    var (b, fs1) := if fs.inodes[i].block == 0 then AllocBlock(fs) else (fs.inodes[i].block, fs);
    if b == 0 then (0, fs) else
      var size := (fs.inodes[i].size + count) % WORD;
      (count, fs1.(inodes := fs.inodes[i := Inode(fs.inodes[i].mode, size, b)],
                   blocks := fs.blocks[b := Splice(fs.blocks[b], 0, data[..count])]))
  }

  /** abyssfs_unlink; false for -1. Only the root directory is searched, for the whole path. */
  function Unlink(fs: Fs, path: seq<byte>): (r: (bool, Fs))
    requires Shape(fs) && Chain(fs.blocks[ROOT_BLOCK], 0)
    ensures Shape(r.1)
  {
    var name, root := SkipSlashes(path), fs.blocks[ROOT_BLOCK];
    var es := Entries(root, 0);
    var k := IndexOf(es, name);
    if k == |es| then (false, fs) else
      FindAgrees(root, 0, name);
      var fs1 := fs.(blocks := fs.blocks[ROOT_BLOCK := Deleted(root, name)]);
      (true, Release(fs1, es[k].inode))
  }

  /** The inode is marked free and its block, if any, returned. */
  function Release(fs: Fs, i: nat): (r: Fs)
    requires Shape(fs)
    ensures Shape(r)
  {
    if i >= MAX_INODES then fs else
      var b := fs.inodes[i].block;
      var fs1 := fs.(inodes := fs.inodes[i := fs.inodes[i].(mode := 0)]);
      if 0 < b < TOTAL_BLOCKS then fs1.(used := fs.used - {b}, free := fs.free + 1) else fs1
  }

  /** The state abyssfs_init builds on zeroed memory. */
  function Init(): (fs: Fs)
    ensures Shape(fs)
  {
    var empty := seq(MAX_INODES, _ => Inode(0, 0, 0));
    var zero := seq(TOTAL_BLOCKS, n => if n < FIRST_DATA then [] else Zeros(BLOCK_SIZE));
    Fs(empty[ROOT_INODE := Inode(DIR_MODE, BLOCK_SIZE, ROOT_BLOCK)],
       zero[ROOT_BLOCK := Splice(Zeros(BLOCK_SIZE), 0, DotRecords(ROOT_INODE))],
       {0, 1, 2, 3, 4, 5, 6, 7, 8, ROOT_BLOCK},
       TOTAL_BLOCKS - INODE_BLOCKS - 1)
  }

  /** abyssfs_read: the bytes delivered; the position advances by their number. */
  function Read(fs: Fs, i: nat, pos: nat, count: nat): (bytes: seq<byte>)
    requires Shape(fs) && i < MAX_INODES
    requires fs.inodes[i].size == 0 || (FIRST_DATA <= fs.inodes[i].block < TOTAL_BLOCKS && fs.inodes[i].size <= BLOCK_SIZE)
  {
    var size := fs.inodes[i].size;
    if pos >= size then [] else fs.blocks[fs.inodes[i].block][pos..Min(pos + count, size)]
  }
}
