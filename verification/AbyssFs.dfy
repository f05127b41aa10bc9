/** abyssfs.c on its raw memory: one byte array, a 64-bit bitmap and the free-block counter. Every method is
    proved to change the decoded state as the function of the same name in AbyssSpec says. */
module AbyssFs {
  import opened Bytes
  import opened DirRecords
  import opened AbyssSpec
  import opened AbyssInvariant
  import opened AbyssRuns
  import opened AbyssLayout
  import CStrings
  import Tokens
  import Bitmap

  /** What abyssfs_create and abyssfs_open put into a struct vfs_file. */
  class File {
    const inode: nat
    var pos: nat

    constructor (inode: nat)
      ensures this.inode == inode && pos == 0
    {
      this.inode, pos := inode, 0;
    }
  }

  class Volume {
    const blocks: array<byte>
    var bitmap: bv64
    var free: int

    ghost predicate Allocated()
    {
      blocks.Length == DISK_SIZE
    }

    ghost function View(): (fs: Fs)
      requires Allocated()
      reads this, blocks
      ensures Shape(fs)
    {
      Decode(blocks[..], Bitmap.Used(bitmap), free)
    }

    ghost predicate Valid()
      reads this, blocks
    {
      Allocated() && Inv(View())
    }

    /** abyssfs_init. */
    constructor ()
      ensures Valid() && fresh(blocks)
      ensures View() == AbyssSpec.Init()
    {
      blocks := new byte[DISK_SIZE];
      bitmap, free := 0, TOTAL_BLOCKS - INODE_BLOCKS - 1;
      new;
      hide Inv, Inodes, Blocks, Bitmap.Used;
      InitDisk();
      InitBitmap();
      InitKeeps();
    }

    method InitDisk()
      requires blocks.Length == DISK_SIZE
      modifies blocks
      ensures Inodes(blocks[..]) == AbyssSpec.Init().inodes && Blocks(blocks[..]) == AbyssSpec.Init().blocks
    {
      hide Splice, Fill, Inodes, Blocks, InodeOffset, AbyssSpec.Init;
      CStrings.Memset(blocks, 0, 0, DISK_SIZE);
      ZeroBytes(DISK_SIZE);
      WholeSplice(old(blocks[..]), Zeros(DISK_SIZE));
      ghost var zero := Zeros(DISK_SIZE);
      ZeroDisk();
      var i: nat := 0;
      while i < INODE_BLOCKS
        invariant i <= INODE_BLOCKS
        invariant Inodes(blocks[..]) == Inodes(zero) && Blocks(blocks[..]) == Blocks(zero)
      {
        var inode := GetInode(i);
        InodeWords(blocks[..], i);
        ClearInode(blocks[..], i);
        CStrings.Memset(blocks, inode.value, 0, INODE_SIZE);
        i := i + 1;
      }
      InitRoot();
      InitDecoded();
    }

    /** The root inode and the two records of its block. */
    method InitRoot()
      requires Allocated()
      modifies blocks
      ensures Inodes(blocks[..]) == Inodes(old(blocks[..]))[ROOT_INODE := Inode(DIR_MODE, BLOCK_SIZE, ROOT_BLOCK)]
      ensures |Blocks(old(blocks[..]))[ROOT_BLOCK]| == BLOCK_SIZE
      ensures Blocks(blocks[..]) ==
              Blocks(old(blocks[..]))[ROOT_BLOCK := Splice(Blocks(old(blocks[..]))[ROOT_BLOCK], 0, DotRecords(ROOT_INODE))]
    {
      hide Splice, Inodes, Blocks, InodeOffset, LE32, DotRecords, BlockAt;
      ghost var d := blocks[..];
      var root := GetInode(ROOT_INODE);
      InodeWords(d, ROOT_INODE);
      WriteWord(d, ROOT_INODE, 0, DIR_MODE);
      PutWord(root.value, DIR_MODE);
      WriteWord(blocks[..], ROOT_INODE, 4, BLOCK_SIZE);
      PutWord(root.value + 4, BLOCK_SIZE);
      WriteWord(blocks[..], ROOT_INODE, 8, INODE_BLOCKS + 1);
      PutWord(root.value + 8, INODE_BLOCKS + 1);
      ghost var d' := blocks[..];
      assert Inodes(d') == Inodes(d)[ROOT_INODE := Inode(DIR_MODE, BLOCK_SIZE, ROOT_BLOCK)];
      BlockIs(d', ROOT_BLOCK);
      WriteInBlock(d', ROOT_BLOCK, 0, DotRecords(ROOT_INODE));
      var start := GetBlock(INODE_BLOCKS + 1);
      StoreDots(start.value, ROOT_INODE);
    }

    method InitBitmap()
      modifies this`bitmap
      ensures Bitmap.Used(bitmap) == AbyssSpec.Init().used
    {
      hide Bitmap.Lit, Bitmap.SetBit, Bitmap.Lane, Bitmap.Used, AbyssSpec.Init, Range;
      InitUsed();
      bitmap := 0;
      Bitmap.NothingMarked();
      var i: nat := 0;
      while i <= INODE_BLOCKS
        invariant i <= INODE_BLOCKS + 1
        invariant Bitmap.Used(bitmap) == Range(0, i)
      {
        assert Range(0, i + 1) == Range(0, i) + {i};
        Bitmap.MarkAdds(bitmap, i);
        bitmap := Bitmap.SetBit(bitmap, Bitmap.Lane(i));
        i := i + 1;
      }
      Bitmap.MarkAdds(bitmap, INODE_BLOCKS + 1);
      bitmap := Bitmap.SetBit(bitmap, Bitmap.Lane(INODE_BLOCKS + 1));
    }

    // ---- words and pointers ----

    method GetWord(at: nat) returns (v: nat)
      requires at + 4 <= blocks.Length
      ensures v == U32(blocks[..], at)
    {
      v := blocks[at] as int + 0x100 * blocks[at + 1] as int
        + 0x1_0000 * blocks[at + 2] as int + 0x100_0000 * blocks[at + 3] as int;
    }

    method PutWord(at: nat, v: nat)
      requires at + 4 <= blocks.Length && v < WORD
      modifies blocks
      ensures blocks[..] == Splice(old(blocks[..]), at, LE32(v))
    {
      blocks[at] := v % 0x100;
      blocks[at + 1] := v / 0x100 % 0x100;
      blocks[at + 2] := v / 0x100 / 0x100 % 0x100;
      blocks[at + 3] := v / 0x100 / 0x100 / 0x100;
    }

    /** The pointer is an offset into the disk, None for NULL. */
    method GetBlock(n: nat) returns (at: Option<nat>)
      ensures at == if n < TOTAL_BLOCKS then Some(n * BLOCK_SIZE) else None
      ensures at.Some? ==> at.value + BLOCK_SIZE <= DISK_SIZE
    {
      if n >= TOTAL_BLOCKS {
        return None;
      }
      return Some(n * BLOCK_SIZE);
    }

    method GetInode(n: nat) returns (at: Option<nat>)
      ensures at == if n < MAX_INODES then Some(InodeOffset(n)) else None
      ensures at.Some? ==> BLOCK_SIZE <= at.value && at.value + INODE_SIZE <= FIRST_DATA * BLOCK_SIZE
    {
      if n >= INODE_BLOCKS * BLOCK_SIZE / INODE_SIZE {
        return None;
      }
      var perBlock := BLOCK_SIZE / INODE_SIZE;
      var block := GetBlock(1 + n / perBlock);
      InodeOffsetInTable(n);
      if block == None {
        return None;
      }
      return Some(block.value + n % perBlock * INODE_SIZE);
    }

    // ---- allocation ----

    method AllocBlock() returns (b: nat)
      requires Allocated()
      modifies this`bitmap, this`free
      ensures (b, View()) == AbyssSpec.AllocBlock(old(View()))
    {
      hide Bitmap.Lit, Bitmap.SetBit, Bitmap.Lane, Inodes, Blocks;
      ghost var used := Bitmap.Used(bitmap);
      var i: nat := FIRST_DATA;
      while i < TOTAL_BLOCKS
        invariant FIRST_DATA <= i <= TOTAL_BLOCKS
        invariant ClearBlock(used, FIRST_DATA) == ClearBlock(used, i)
      {
        if !Bitmap.Marked(bitmap, i) {
          Bitmap.MarkAdds(bitmap, i);
          bitmap := Bitmap.SetBit(bitmap, Bitmap.Lane(i));
          free := free - 1;
          return i;
        }
        i := i + 1;
      }
      return 0;
    }

    method FreeBlock(b: nat)
      requires Allocated()
      modifies this`bitmap, this`free
      ensures View() == if b < TOTAL_BLOCKS
                        then old(View()).(used := old(View()).used - {b}, free := old(View()).free + 1)
                        else old(View())
    {
      hide Bitmap.Lit, Bitmap.ClearBit, Bitmap.Lane, Inodes, Blocks;
      if b < TOTAL_BLOCKS {
        Bitmap.ClearRemoves(bitmap, b);
        bitmap := Bitmap.ClearBit(bitmap, Bitmap.Lane(b));
        free := free + 1;
      }
    }

    method AllocInode() returns (n: nat)
      requires Allocated()
      modifies blocks
      ensures (n, View()) == AbyssSpec.AllocInode(old(View()))
    {
      hide Splice, Fill, Inodes, Blocks, InodeOffset, LE32, U32;
      ghost var d := blocks[..];
      var i: nat := 1;
      while i < MAX_INODES
        invariant 1 <= i <= MAX_INODES && blocks[..] == d
        invariant FreeInode(Inodes(d), 1) == FreeInode(Inodes(d), i)
      {
        var at := GetInode(i);
        InodeWords(d, i);
        var mode := GetWord(at.value);
        if mode == 0 {
          CStrings.Memset(blocks, at.value, 0, INODE_SIZE);
          ClearInode(d, i);
          WriteWord(blocks[..], i, 0, NEW_MODE);
          PutWord(at.value, NEW_MODE);
          assert Inodes(blocks[..]) == Inodes(d)[i := Inode(NEW_MODE, 0, 0)];
          return i;
        }
        i := i + 1;
      }
      return 0;
    }

    // ---- looking up ----

    /** The directory walk of unlink and get_inode_by_path: the offset of the first record with this name,
        or of the end of the chain. `n` is the block that starts at `start`. */
    method FindRecord(start: nat, name: seq<byte>, ghost n: nat) returns (at: nat)
      requires Allocated() && FIRST_DATA <= n < TOTAL_BLOCKS && start == n * BLOCK_SIZE
      requires Chain(BlockAt(blocks[..], n), 0) && 0 in name
      ensures at == start + FindAt(BlockAt(blocks[..], n), 0, Text(name))
    {
      hide Chain, Entries, GoodRecord, EntryAt, TextLen, BlockAt, FindAt;
      ghost var d, b, w := blocks[..], BlockAt(blocks[..], n), Text(name);
      at := start;
      ChainByte(d, n, 0);
      while blocks[at + 5] != 0
        invariant start <= at && at - start + 6 <= BLOCK_SIZE && Chain(b, at - start)
        invariant FindAt(b, 0, w) == FindAt(b, at - start, w)
        decreases start + BLOCK_SIZE - at
      {
        WalkStep(d, n, at - start, w);
        var r := CStrings.Strcmp(blocks[..][at + 6..], name);
        if r == 0 {
          return;
        }
        at := at + blocks[at + 5];
      }
      ChainByte(d, n, at - start);
      FindAtEnd(b, at - start, w);
    }

    /** The inode found, by number; None for NULL. */
    method GetInodeByPath(path: seq<byte>) returns (r: Option<nat>)
      requires Allocated() && 0 in path
      requires DirsOnly(View(), ROOT_INODE, PathWords(Text(path)))
      ensures r == Walk(View(), ROOT_INODE, PathWords(Text(path)))
    {
      hide Inv, Chain, Entries, TextLen, Walk, DirsOnly, SkipSlashes, Decode, Shape;
      hide Tokens.Holds, Tokens.SplitFrom, Tokens.TokenStart, Tokens.TokenEnd;
      ghost var fs := View();
      var p := SkipLeading(path);
      ghost var t := Take(SkipSlashes(Text(path)), PATH_COPY);
      ghost var words := PathWords(Text(path));
      ghost var goal := Walk(fs, ROOT_INODE, words);
      var inode: nat := ROOT_INODE;
      if p[0] == 0 {
        EmptyPath(p);
        WalkNothing(fs, inode);
        return Some(inode);
      }
      var copy := CopyPath(p);
      Tokens.TextHolds(copy[..]);
      var slash: seq<byte> := [SLASH, 0];
      SlashDelimiter();
      var token, save := Tokens.StrtokR(copy, Some(0), slash, 0, t);
      ghost var q := 0;
      while token.Some?
        invariant Tokens.TokenAt(copy[..], t, SLASHES, q, token, save)
        invariant words == Tokens.SplitFrom(t, SLASHES, q)
        invariant View() == fs && inode < MAX_INODES
        invariant DirsOnly(fs, inode, words) && Walk(fs, inode, words) == goal
        decreases |t| - q
      {
        Tokens.TokenFound(copy[..], t, SLASHES, q, token, save);
        var w := copy[..][token.value..];
        assert words == [Text(w)] + Tokens.SplitFrom(t, SLASHES, save);
        var next := LookIn(inode, w, words);
        if next == None {
          return None;
        }
        inode, q, words := next.value, save, words[1..];
        token, save := Tokens.StrtokR(copy, None, slash, save, t);
      }
      Tokens.NoTokenLeft(copy[..], t, SLASHES, q, save);
      WalkNothing(fs, inode);
      return Some(inode);
    }

    /** One component: search the block of `inode` for `w`. */
    method LookIn(inode: nat, w: seq<byte>, ghost words: seq<seq<byte>>) returns (next: Option<nat>)
      requires Allocated() && inode < MAX_INODES && 0 in w && words != [] && words[0] == Text(w)
      requires DirsOnly(View(), inode, words)
      ensures next == None ==> Walk(View(), inode, words) == None
      ensures next.Some? ==>
                && next.value < MAX_INODES && DirsOnly(View(), next.value, words[1..])
                && Walk(View(), inode, words) == Walk(View(), next.value, words[1..])
    {
      hide Inv, Chain, Entries, TextLen, InodeOffset, BlockAt, FindAt, Inodes, Blocks, Walk, DirsOnly, IndexOf, U32;
      ghost var fs, d := View(), blocks[..];
      WalkInto(fs, inode, words);
      var at := GetInode(inode);
      InodeWords(d, inode);
      var block := GetWord(at.value + 8);
      if block == 0 {
        return None;
      }
      var start := GetBlock(block);
      BlockIs(d, block);
      var pos := FindRecord(start.value, w, block);
      FindAgrees(BlockAt(d, block), 0, Text(w));
      ChainByte(d, block, pos - start.value);
      if blocks[pos + 5] == 0 {
        return None;
      }
      RecordOnDisk(d, block, pos - start.value);
      var n := GetWord(pos);
      return Some(n);
    }

    /** path_copy: at most 255 characters and a NUL. */
    method CopyPath(p: seq<byte>) returns (copy: array<byte>)
      requires 0 in p
      ensures fresh(copy) && 0 in copy[..] && Text(copy[..]) == Take(Text(p), PATH_COPY)
    {
      hide TextLen, Fill;
      copy := new byte[PATH_COPY + 1](_ => 0);
      CStrings.Strncpy(copy, p, PATH_COPY);
      copy[PATH_COPY] := 0;
      ghost var t := Take(Text(p), PATH_COPY);
      ZeroBytes(PATH_COPY - |t|);
      assert copy[|t|] == 0 && copy[..|t|] == t;
      TextLenIs(copy[..], |t|);
    }

    // ---- create_file ----

    /** The fields of the new directory entry. */
    method StoreRecord(at: nat, inode: nat, name: seq<byte>)
      requires 0 in name && inode < WORD && at + 7 + |Text(name)| % 0x100 <= blocks.Length
      modifies blocks
      ensures blocks[..] == Splice(old(blocks[..]), at, RecordBytes(Entry(inode, Text(name))))
    {
      hide TextLen, MinRec, LE32;
      ghost var d, t := blocks[..], Text(name);
      PutWord(at, inode);
      var strlen := CStrings.Strlen(name);
      var len := strlen % 0x100;
      blocks[at + 4] := len;
      blocks[at + 5] := RoundUp((6 + len + 1) % 0x100, 4);
      RecordLengthByte(len);
      assert name[..len] == t[..len];
      CStrings.Memcpy(blocks, at + 6, name, len);
      blocks[at + 6 + len] := 0;
      RecordSplice(d, blocks[..], at, Entry(inode, t));
    }

    /** The walk of create_file to the end of the chain: the last record. */
    method FindLast(start: nat, ghost n: nat) returns (last: nat)
      requires Allocated() && FIRST_DATA <= n < TOTAL_BLOCKS && start == n * BLOCK_SIZE
      requires Chain(BlockAt(blocks[..], n), 0) && BlockAt(blocks[..], n)[5] != 0
      ensures last == start + LastAt(BlockAt(blocks[..], n), 0)
    {
      hide Chain, Entries, BlockAt, LastAt;
      ghost var d, b := blocks[..], BlockAt(blocks[..], n);
      var entry := start;
      last := start;
      ChainByte(d, n, 0);
      while entry < start + BLOCK_SIZE && blocks[entry + 5] > 0
        invariant start <= entry && entry - start + 6 <= BLOCK_SIZE && Chain(b, entry - start)
        invariant blocks[entry + 5] == b[entry - start + 5]
        invariant b[entry - start + 5] != 0 ==> LastAt(b, 0) == LastAt(b, entry - start)
        invariant b[entry - start + 5] == 0 ==> last == start + LastAt(b, 0)
        decreases start + BLOCK_SIZE - entry
      {
        last := entry;
        LastStep(b, entry - start);
        entry := entry + blocks[entry + 5];
        ChainByte(d, n, entry - start);
      }
    }

    method AppendRecord(n: nat, inode: nat, name: seq<byte>)
      requires Allocated() && FIRST_DATA <= n < TOTAL_BLOCKS && 0 in name && inode < WORD
      requires Appendable(BlockAt(blocks[..], n), Entry(inode, Text(name))) && |BlockAt(blocks[..], n)| == BLOCK_SIZE
      modifies blocks
      ensures Inodes(blocks[..]) == Inodes(old(blocks[..]))
      ensures Blocks(blocks[..]) == Blocks(old(blocks[..]))[n := Appended(BlockAt(old(blocks[..]), n), Entry(inode, Text(name)))]
    {
      hide Chain, Entries, BlockAt, LastAt, MinSize, MinRec, Splice, Fill, RecordBytes, Inodes, Blocks, TextLen;
      ghost var d, b, e := blocks[..], BlockAt(blocks[..], n), Entry(inode, Text(name));
      var start := n * BLOCK_SIZE;
      var prev := FindLast(start, n);
      ghost var l := LastAt(b, 0);
      LastEnd(b, 0);
      LastRecord(b, 0);
      Unfold(b, l);
      BlockByte(d, n, l + 4);
      RecordLengthFits(b[l + 4]);
      RecordLengthByte(b[l + 4]);
      var prevMin := RoundUp((6 + blocks[prev + 4] + 1) % 0x100, 4);
      AppendWrites(d, n, l, prevMin, l + prevMin, RecordBytes(e));
      blocks[prev + 5] := prevMin;
      assert blocks[..] == Splice(d, start + (l + 5), [prevMin]);
      var entry := prev + prevMin;
      CStrings.Memset(blocks, entry, 0, start + BLOCK_SIZE - entry);
      StoreRecord(entry, inode, name);
    }

    /** The first half of create_file: the block of the current directory, None for an error. */
    method CwdBlock(cwd: seq<byte>) returns (block: Option<nat>)
      requires Allocated() && Rooted(View()) && CwdMemory(cwd)
      requires DirsOnly(View(), ROOT_INODE, CwdWords(Text(cwd)))
      ensures var fs := View();
              var d := CwdInode(fs, Text(cwd));
              block == if d == None || fs.inodes[d.value].block == 0 then None else Some(fs.inodes[d.value].block)
    {
      hide Inv, Chain, Entries, TextLen, InodeOffset, BlockAt, Walk, DirsOnly, PathWords, CwdWords, Inodes, Blocks, U32;
      ghost var fs := View();
      var dir: Option<nat> := None;
      var r := CStrings.Strcmp(cwd, [SLASH, 0]);
      CwdPath(cwd);
      if r != 0 {
        dir := GetInodeByPath(cwd[1..]);
        if dir == None {
          return None;
        }
      } else {
        WalkNothing(fs, ROOT_INODE);
        dir := Some(ROOT_INODE);
      }
      var at := GetInode(dir.value);
      InodeWords(blocks[..], dir.value);
      var n := GetWord(at.value + 8);
      RootHasBlock(fs);
      if n == 0 {
        if dir.value != ROOT_INODE {
          return None;
        }
        n := INODE_BLOCKS + 1;
      }
      return Some(n);
    }

    /** False for -1. `cwd` is the memory of current_process->cwd. */
    method CreateFile(cwd: seq<byte>, name: seq<byte>, inode: nat) returns (ok: bool)
      requires Allocated() && Rooted(View()) && CwdMemory(cwd) && 0 in name && inode < WORD
      requires CanEnter(View(), Text(cwd), Basename(Text(name)))
      modifies blocks
      ensures (ok, View()) == AbyssSpec.CreateFile(old(View()), Text(cwd), Entry(inode, Basename(Text(name))))
    {
      hide Inv, Chain, Entries, TextLen, BlockAt, Walk, DirsOnly, MinSize, MinRec, Appended;
      hide CStrings.LastIndex, CwdWords, Inodes, Blocks;
      ghost var fs, d := View(), blocks[..];
      var block := CwdBlock(cwd);
      if block == None {
        return false;
      }
      BlockIs(d, block.value);
      var slash := CStrings.Strrchr(name, SLASH);
      var basename := if slash == None then name else name[slash.value + 1..];
      BasenameText(name);
      AppendRecord(block.value, inode, basename);
      return true;
    }

    // ---- the operations of the file system table ----

    /** The handle's inode number is what abyssfs_create returns; None for NULL. */
    method Create(cwd: seq<byte>, path: seq<byte>) returns (h: Option<File>)
      requires Valid() && CwdMemory(cwd) && 0 in path
      requires AbyssSpec.AllocInode(View()).0 != 0 ==> CanEnter(View(), Text(cwd), NewName(Text(path)))
      modifies blocks
      ensures CreateOk(old(View()), Text(cwd), Text(path)) ==> Valid()
      ensures AbyssSpec.AllocInode(old(View())).0 != 0 ==>
                CanEnter(AbyssSpec.AllocInode(old(View())).1, Text(cwd), Basename(SkipSlashes(Text(path))))
      ensures (if h == None then None else Some(h.value.inode), View()) == AbyssSpec.Create(old(View()), Text(cwd), Text(path))
      ensures h.Some? ==> fresh(h.value) && h.value.pos == 0
    {
      hide Inv, Chain, Entries, TextLen, CanEnter, SkipSlashes, Basename, Decode, FreeInode;
      ghost var fs := View();
      CreateEnters(fs, Text(cwd), Text(path));
      var p := SkipLeading(path);
      var n := AllocInode();
      if n == 0 {
        return None;
      }
      var ok := CreateFile(cwd, p, n);
      if !ok {
        return None;
      }
      var f := new File(n);
      return Some(f);
    }

    /** abyssfs_open does not look the path up: every handle it returns is on inode 0. */
    method Open() returns (h: File)
      ensures fresh(h) && h.inode == 0 && h.pos == 0
    {
      h := new File(0);
    }

    /** "." and ".." at the front of the block that starts at `start`. */
    method StoreDots(start: nat, inode: nat)
      requires start + BLOCK_SIZE <= blocks.Length && inode < WORD
      modifies blocks
      ensures blocks[..] == Splice(old(blocks[..]), start, DotRecords(inode))
    {
      hide TextLen, LE32, Splice, DotRecords;
      ghost var d := blocks[..];
      DotTexts();
      PutWord(start, inode);
      blocks[start + 4] := 1;
      var rec := RoundUp(6 + 1 + 1, 4);
      blocks[start + 5] := rec;
      assert blocks[..] == Splice(d, start, LE32(inode))[start + 4 := 1][start + 5 := 8];
      CStrings.Strcpy(blocks, start + 6, [DOT, 0]);
      ghost var d1 := blocks[..];
      var dotdot := start + rec;
      PutWord(dotdot, 1);
      blocks[dotdot + 4] := 2;
      blocks[dotdot + 5] := (BLOCK_SIZE - rec as int) % 0x100;
      assert blocks[..] == Splice(d1, start + 8, LE32(1))[start + 12 := 2][start + 13 := 248];
      CStrings.Strcpy(blocks, dotdot + 6, [DOT, DOT, 0]);
      DotSplice(d, blocks[..], start, inode);
    }

    /** The inode and block of a new directory. */
    method MakeDir(n: nat, b: nat)
      requires Allocated() && n < MAX_INODES && FIRST_DATA <= b < TOTAL_BLOCKS
      requires View().inodes[n].mode < DIR_MODE
      modifies blocks
      ensures View() == AbyssSpec.MakeDir(old(View()), n, b)
    {
      hide Splice, Inodes, Blocks, InodeOffset, LE32, U32, DotRecords, BlockAt;
      ghost var d := blocks[..];
      var at := GetInode(n);
      InodeWords(d, n);
      WriteWord(d, n, 8, b);
      PutWord(at.value + 8, b);
      WriteWord(blocks[..], n, 4, BLOCK_SIZE);
      PutWord(at.value + 4, BLOCK_SIZE);
      InodeWords(blocks[..], n);
      var mode := GetWord(at.value);
      WriteWord(blocks[..], n, 0, mode + DIR_MODE);
      PutWord(at.value, if mode / DIR_MODE % 2 == 1 then mode else mode + DIR_MODE);
      ghost var d' := blocks[..];
      assert Inodes(d') == Inodes(d)[n := Inode(mode + DIR_MODE, BLOCK_SIZE, b)];
      BlockIs(d', b);
      BlockIs(d, b);
      WriteInBlock(d', b, 0, DotRecords(n));
      var start := GetBlock(b);
      StoreDots(start.value, n);
    }

    method Mkdir(cwd: seq<byte>, path: seq<byte>) returns (ok: bool)
      requires Valid() && CwdMemory(cwd) && 0 in path
      requires MkdirMade(View()).Some? ==> CanEnter(View(), Text(cwd), NewName(Text(path)))
      modifies this, blocks
      ensures MkdirOk(old(View()), Text(cwd), Text(path)) ==> Valid()
      ensures MkdirMade(old(View())).Some? ==>
                CanEnter(MkdirMade(old(View())).value.1, Text(cwd), Basename(SkipSlashes(Text(path))))
      ensures (ok, View()) == AbyssSpec.Mkdir(old(View()), Text(cwd), Text(path))
    {
      hide Inv, Chain, Entries, TextLen, CanEnter, SkipSlashes, Basename, Decode;
      hide FreeInode, ClearBlock, AbyssSpec.MakeDir, CStrings.LastIndex;
      ghost var fs := View();
      MkdirEnters(fs, Text(cwd), Text(path));
      var p := SkipLeading(path);
      var n := AllocInode();
      if n == 0 {
        return false;
      }
      var b := AllocBlock();
      if b == 0 {
        return false;
      }
      NewInodeMode(fs);
      MakeDir(n, b);
      var basename := BasenameOf(p);
      ok := CreateFile(cwd, basename, n);
    }

    /** write_to_blocks: at most one block, allocated on the first write; 0 when none is free. */
    method WriteToBlocks(i: nat, buf: seq<byte>) returns (written: nat)
      requires Allocated() && i < MAX_INODES && Writable(View(), i)
      modifies this, blocks
      ensures Allocated()
      ensures var fs := old(View());
              var count := Min(|buf|, BLOCK_SIZE);
              var (b, fs1) := if fs.inodes[i].block == 0 then AbyssSpec.AllocBlock(fs) else (fs.inodes[i].block, fs);
              if b == 0 then written == 0 && View() == fs else
                && b < TOTAL_BLOCKS && written == count
                && View() == fs1.(inodes := fs.inodes[i := fs.inodes[i].(block := b)],
                                  blocks := fs.blocks[b := Splice(fs.blocks[b], 0, buf[..count])])
    {
      hide Inv, Inodes, Blocks, Splice, InodeOffset, BlockAt, LE32, U32, Chain;
      ghost var fs, d := View(), blocks[..];
      var count := if |buf| > BLOCK_SIZE then BLOCK_SIZE else |buf|;
      var at := GetInode(i);
      InodeWords(d, i);
      var block := GetWord(at.value + 8);
      if block == 0 {
        block := AllocBlock();
        if block == 0 {
          return 0;
        }
        WriteWord(d, i, 8, block);
        PutWord(at.value + 8, block);
      }
      assert Inodes(blocks[..]) == fs.inodes[i := fs.inodes[i].(block := block)] && Blocks(blocks[..]) == fs.blocks;
      CopyIntoBlock(block, buf, count);
      return count;
    }

    /** The memcpy of write_to_blocks. */
    method CopyIntoBlock(block: nat, buf: seq<byte>, count: nat)
      requires Allocated() && FIRST_DATA <= block < TOTAL_BLOCKS && count <= |buf| && count <= BLOCK_SIZE
      modifies blocks
      ensures Inodes(blocks[..]) == Inodes(old(blocks[..]))
      ensures |Blocks(old(blocks[..]))[block]| == BLOCK_SIZE
      ensures Blocks(blocks[..]) == Blocks(old(blocks[..]))[block := Splice(Blocks(old(blocks[..]))[block], 0, buf[..count])]
    {
      hide Inodes, Blocks, Splice, BlockAt;
      ghost var d := blocks[..];
      BlockIs(d, block);
      WriteInBlock(d, block, 0, buf[..count]);
      CStrings.Memcpy(blocks, block * BLOCK_SIZE, buf, count);
    }

    /** The number of bytes written, -1 for a bad inode number. */
    method Write(f: File, buf: seq<byte>) returns (r: int)
      requires Allocated() && (f.inode < MAX_INODES ==> Writable(View(), f.inode))
      modifies this, blocks
      ensures f.inode >= MAX_INODES ==> r == -1 && View() == old(View())
      ensures f.inode < MAX_INODES ==>
                && (old(Valid()) && WriteOk(old(View()), f.inode) ==> Valid())
                && (r, View()) == AbyssSpec.Write(old(View()), f.inode, buf)
    {
      hide Inv, Inodes, Blocks, Splice, InodeOffset, LE32, U32, Chain;
      ghost var fs := View();
      var at := GetInode(f.inode);
      if at == None {
        return -1;
      }
      if Inv(fs) && WriteOk(fs, f.inode) {
        WriteKeeps(fs, f.inode, buf);
      }
      var written := WriteToBlocks(f.inode, buf);
      ghost var d := blocks[..];
      InodeWords(d, f.inode);
      if written > 0 {
        var size := GetWord(at.value + 4);
        WriteWord(d, f.inode, 4, (size + written) % WORD);
        PutWord(at.value + 4, (size + written) % WORD);
      }
      assert fs.inodes[f.inode].size < WORD by {
        InodeWords(old(blocks[..]), f.inode);
      }
      assert View().inodes == AbyssSpec.Write(fs, f.inode, buf).1.inodes;
      return written;
    }

    /** The bytes delivered into the caller's buffer; -1 for a bad inode number. */
    method Read(f: File, count: nat) returns (r: int, bytes: seq<byte>)
      requires Allocated() && (f.inode < MAX_INODES ==> Readable(View(), f.inode))
      modifies f
      ensures f.inode >= MAX_INODES ==> r == -1 && bytes == [] && f.pos == old(f.pos)
      ensures f.inode < MAX_INODES ==>
                && bytes == AbyssSpec.Read(View(), f.inode, old(f.pos), count)
                && r == |bytes| && f.pos == old(f.pos) + |bytes|
    {
      hide Inodes, Blocks, InodeOffset, U32;
      ghost var d := blocks[..];
      var at := GetInode(f.inode);
      if at == None {
        return -1, [];
      }
      InodeWords(d, f.inode);
      var size := GetWord(at.value + 4);
      if f.pos >= size {
        return 0, [];
      }
      var n := if f.pos + count > size then size - f.pos else count;
      var block := GetWord(at.value + 8);
      BlockIs(d, block);
      var from := block * BLOCK_SIZE + f.pos;
      bytes := blocks[from..from + n];
      BlockSlice(d, block, f.pos, f.pos + n);
      f.pos := f.pos + n;
      r := n;
    }

    /** False for -1. */
    method Unlink(path: seq<byte>) returns (ok: bool)
      requires Valid() && 0 in path
      modifies this, blocks
      ensures UnlinkOk(Text(path)) ==> Valid()
      ensures Chain(old(View()).blocks[ROOT_BLOCK], 0)
      ensures (ok, View()) == AbyssSpec.Unlink(old(View()), Text(path))
    {
      hide Inv, Chain, Entries, Inodes, Blocks, InodeOffset, BlockAt, TextLen, FindAt, Deleted, U32;
      ghost var fs, d := View(), blocks[..];
      RootReadable(fs);
      if UnlinkOk(Text(path)) {
        UnlinkKeeps(fs, Text(path));
      }
      var p := SkipLeading(path);
      var start := GetBlock(INODE_BLOCKS + 1);
      BlockIs(d, ROOT_BLOCK);
      var pos := FindRecord(start.value, p, ROOT_BLOCK);
      ghost var b := BlockAt(d, ROOT_BLOCK);
      FindAgrees(b, 0, Text(p));
      ChainByte(d, ROOT_BLOCK, pos - start.value);
      if blocks[pos + 5] == 0 {
        return false;
      }
      RecordOnDisk(d, ROOT_BLOCK, pos - start.value);
      var inode := GetWord(pos);
      ReleaseInode(inode);
      BlockIs(blocks[..], ROOT_BLOCK);
      RemoveRecord(start.value, pos, Text(p));
      return true;
    }

    /** The inode is marked free and its block returned; the block number stays in the inode. */
    method ReleaseInode(i: nat)
      requires Allocated()
      modifies this, blocks
      ensures View() == Release(old(View()), i)
      ensures Blocks(blocks[..]) == Blocks(old(blocks[..]))
    {
      hide Inodes, Blocks, InodeOffset, LE32, U32, Splice;
      ghost var d := blocks[..];
      var at := GetInode(i);
      if at.Some? {
        InodeWords(d, i);
        WriteWord(d, i, 0, 0);
        PutWord(at.value, 0);
        InodeWords(blocks[..], i);
        var block := GetWord(at.value + 8);
        if block != 0 {
          FreeBlock(block);
        }
      }
    }

    /** The move or clear at the end of unlink, at the record of `name`. */
    method RemoveRecord(start: nat, pos: nat, ghost name: seq<byte>)
      requires Allocated() && start == ROOT_BLOCK * BLOCK_SIZE && Chain(BlockAt(blocks[..], ROOT_BLOCK), 0)
      requires var b := BlockAt(blocks[..], ROOT_BLOCK);
               pos == start + FindAt(b, 0, name) && b[FindAt(b, 0, name) + 5] != 0
      modifies blocks
      ensures Inodes(blocks[..]) == Inodes(old(blocks[..]))
      ensures Blocks(blocks[..]) == Blocks(old(blocks[..]))[ROOT_BLOCK := Deleted(BlockAt(old(blocks[..]), ROOT_BLOCK), name)]
    {
      hide Chain, Entries, Inodes, Blocks, BlockAt, FindAt, Splice, Fill, Deleted, IndexOf, Without;
      ghost var d, b, q := blocks[..], BlockAt(blocks[..], ROOT_BLOCK), pos - start;
      ChainByte(d, ROOT_BLOCK, q);
      ghost var x := RemovalBytes(b, q);
      DeletedIsSplice(b, name);
      WriteInBlock(d, ROOT_BLOCK, q, x);
      var next := pos + blocks[pos + 5];
      ChainByte(d, ROOT_BLOCK, next - start);
      if blocks[next + 5] > 0 {
        var remaining := BLOCK_SIZE - (next - start);
        BlockSlice(d, ROOT_BLOCK, next - start, BLOCK_SIZE);
        assert d[next..next + remaining] == x;
        CStrings.Memmove(blocks, pos, next, remaining);
      } else {
        assert Fill(0, blocks[pos + 5]) == x;
        CStrings.Memset(blocks, pos, 0, blocks[pos + 5]);
      }
      assert blocks[..] == Splice(d, ROOT_BLOCK * BLOCK_SIZE + q, x);
    }

    /** The entries delivered, at most `count`; None for -1. */
    method ReadDir(path: seq<byte>, count: nat) returns (dirents: Option<seq<Entry>>)
      requires Allocated() && Rooted(View()) && 0 in path
      requires DirsOnly(View(), ROOT_INODE, PathWords(Text(path)))
      requires var d := Walk(View(), ROOT_INODE, PathWords(Text(path))); d.Some? ==> Searchable(View(), d.value)
      ensures var d := Walk(View(), ROOT_INODE, PathWords(Text(path)));
              dirents == if d == None then None else Some(Take(Listing(View(), d.value), count))
    {
      hide Inv, Chain, Entries, TextLen, InodeOffset, BlockAt, Walk, DirsOnly, Inodes, Blocks, U32, SkipSlashes;
      ghost var fs, d := View(), blocks[..];
      var p := SkipLeading(path);
      var block: nat := INODE_BLOCKS + 1;
      ghost var dir: nat := ROOT_INODE;
      RootHasBlock(fs);
      SkippedWords(Text(path));
      if p[0] != 0 {
        var found := GetInodeByPath(p);
        if found == None {
          return None;
        }
        dir := found.value;
        var at := GetInode(found.value);
        InodeWords(d, found.value);
        block := GetWord(at.value + 8);
      } else {
        EmptyPath(p);
        WalkNothing(fs, ROOT_INODE);
      }
      BlockIs(d, block);
      var start := GetBlock(block);
      var es := ListRecords(start.value, count, block);
      return Some(es);
    }

    method ListRecords(start: nat, count: nat, ghost n: nat) returns (es: seq<Entry>)
      requires Allocated() && FIRST_DATA <= n < TOTAL_BLOCKS && start == n * BLOCK_SIZE
      requires Chain(BlockAt(blocks[..], n), 0)
      ensures es == Take(Entries(BlockAt(blocks[..], n), 0), count)
    {
      hide Chain, Entries, GoodRecord, TextLen, BlockAt, U32;
      ghost var d, b := blocks[..], BlockAt(blocks[..], n);
      var at := start;
      es := [];
      ChainByte(d, n, 0);
      ListStep(d, n, 0);
      while blocks[at + 5] > 0 && |es| < count
        invariant start <= at && at - start + 6 <= BLOCK_SIZE && Chain(b, at - start)
        invariant blocks[at + 5] == 0 ==> Entries(b, at - start) == []
        invariant |es| <= count && es + Entries(b, at - start) == Entries(b, 0)
        decreases start + BLOCK_SIZE - at
      {
        ListStep(d, n, at - start);
        var inode := GetWord(at);
        var name := blocks[..][at + 6..];
        var len := CStrings.Strlen(name);
        var e := Entry(inode, name[..len]);
        at := at + blocks[at + 5];
        assert es + ([e] + Entries(b, at - start)) == es + [e] + Entries(b, at - start);
        es := es + [e];
        ListStep(d, n, at - start);
      }
    }
  }

  lemma {:induction false} InitUsed()
    ensures Range(0, INODE_BLOCKS + 1) + {ROOT_BLOCK} == AbyssSpec.Init().used
  {
    hide Splice, DotRecords, Fill, Range;
  }

  lemma {:induction false} InitDecoded()
    ensures var zero := Zeros(DISK_SIZE);
            && Disk(zero) && |Blocks(zero)[ROOT_BLOCK]| == BLOCK_SIZE
            && Inodes(zero)[ROOT_INODE := Inode(DIR_MODE, BLOCK_SIZE, ROOT_BLOCK)] == AbyssSpec.Init().inodes
            && Blocks(zero)[ROOT_BLOCK := Splice(Blocks(zero)[ROOT_BLOCK], 0, DotRecords(ROOT_INODE))] == AbyssSpec.Init().blocks
  {
    hide Splice, DotRecords, Inodes, Blocks;
    ZeroDisk();
    BlockIs(Zeros(DISK_SIZE), ROOT_BLOCK);
  }

  lemma {:induction false} WholeSplice(d: seq<byte>, x: seq<byte>)
    requires |x| == |d|
    ensures Splice(d, 0, x) == x
  {
  }

  lemma {:induction false} SkippedWords(path: seq<byte>)
    ensures PathWords(SkipSlashes(path)) == PathWords(path)
  {
    SkipTwice(path);
  }

  lemma {:induction false} SkipTwice(path: seq<byte>)
    ensures SkipSlashes(SkipSlashes(path)) == SkipSlashes(path)
  {
    if path != [] && path[0] == SLASH {
      SkipTwice(path[1..]);
    }
  }

  /** What unlink stores over the record at `q`. */
  function RemovalBytes(b: seq<byte>, q: nat): (x: seq<byte>)
    requires Chain(b, q) && b[q + 5] != 0
    ensures q + |x| <= |b|
  {
    Unfold(b, q);
    if b[Next(b, q) + 5] != 0 then b[Next(b, q)..] else Zeros(b[q + 5])
  }

  lemma {:induction false} DeletedIsSplice(b: seq<byte>, name: seq<byte>)
    requires Chain(b, 0) && b[FindAt(b, 0, name) + 5] != 0
    ensures var q := FindAt(b, 0, name);
            && Deleted(b, name) == Splice(b, q, RemovalBytes(b, q))
            && Next(b, q) + 6 <= |b| && Chain(b, Next(b, q))
  {
    hide Chain, Splice;
    Unfold(b, FindAt(b, 0, name));
  }

  /** What create needs to know about its own first half, and what it keeps. */
  lemma {:induction false} CreateEnters(fs: Fs, cwd: seq<byte>, path: seq<byte>)
    requires Inv(fs) && (AbyssSpec.AllocInode(fs).0 != 0 ==> CanEnter(fs, cwd, NewName(path)))
    ensures Rooted(AbyssSpec.AllocInode(fs).1)
    ensures AbyssSpec.AllocInode(fs).0 != 0 ==> CanEnter(AbyssSpec.AllocInode(fs).1, cwd, NewName(path))
    ensures CreateOk(fs, cwd, path) ==> Inv(AbyssSpec.Create(fs, cwd, path).1)
  {
    hide Chain, Entries, CanEnter, Enterable, AbyssSpec.CreateFile;
    AllocInodeExtends(fs);
    if AbyssSpec.AllocInode(fs).0 != 0 {
      CanEnterStill(fs, AbyssSpec.AllocInode(fs).1, cwd, NewName(path));
    }
    if CreateOk(fs, cwd, path) {
      CreateKeeps(fs, cwd, path);
    }
  }

  lemma {:induction false} MkdirEnters(fs: Fs, cwd: seq<byte>, path: seq<byte>)
    requires Inv(fs) && (MkdirMade(fs).Some? ==> CanEnter(fs, cwd, NewName(path)))
    ensures MkdirMade(fs).Some? ==>
              Rooted(MkdirMade(fs).value.1) && CanEnter(MkdirMade(fs).value.1, cwd, NewName(path))
    ensures MkdirOk(fs, cwd, path) ==> Inv(AbyssSpec.Mkdir(fs, cwd, path).1)
  {
    hide Chain, Entries, CanEnter, Enterable, AbyssSpec.CreateFile, AbyssSpec.Mkdir;
    if MkdirMade(fs).Some? {
      MadeListings(fs);
      FreshInodeKeeps(fs);
      CanEnterStill(fs, MkdirMade(fs).value.1, cwd, NewName(path));
    }
    if MkdirOk(fs, cwd, path) {
      MkdirKeeps(fs, cwd, path);
    }
  }

  lemma {:induction false} NewInodeMode(fs: Fs)
    requires Shape(fs) && AbyssSpec.AllocInode(fs).0 != 0
    ensures AbyssSpec.AllocInode(fs).1.inodes[AbyssSpec.AllocInode(fs).0].mode == NEW_MODE
  {
  }

  /** What follows the last slash, as mkdir passes it to create_file, which looks for it again. */
  method BasenameOf(path: seq<byte>) returns (basename: seq<byte>)
    requires 0 in path
    ensures 0 in basename && Text(basename) == Basename(Text(path))
    ensures Basename(Text(basename)) == Basename(Text(path))
  {
    hide TextLen;
    var slash := CStrings.Strrchr(path, SLASH);
    basename := if slash == None then path else path[slash.value + 1..];
    BasenameText(path);
    BasenameTwice(Text(path));
  }

  lemma {:induction false} BasenameTwice(path: seq<byte>)
    ensures Basename(Basename(path)) == Basename(path)
  {
  }

  lemma {:induction false} DotTexts()
    ensures 0 in [DOT, 0] && Text([DOT, 0]) == [DOT]
    ensures 0 in [DOT, DOT, 0] && Text([DOT, DOT, 0]) == [DOT, DOT]
  {
    TextLenIs([DOT, 0], 1);
    TextLenIs([DOT, DOT, 0], 2);
  }

  /** The separate stores of the two records make up DotRecords. */
  lemma {:induction false} DotSplice(d: seq<byte>, d': seq<byte>, at: nat, inode: nat)
    requires inode < WORD && at + 17 <= |d| == |d'|
    requires var d1 := Splice(Splice(d, at, LE32(inode))[at + 4 := 1][at + 5 := 8], at + 6, [DOT] + [0]);
             d' == Splice(Splice(d1, at + 8, LE32(1))[at + 12 := 2][at + 13 := 248], at + 14, [DOT, DOT] + [0])
    ensures d' == Splice(d, at, DotRecords(inode))
  {
    hide LE32;
    var x := DotRecords(inode);
    assert forall k :: 0 <= k < 4 ==> x[k] == LE32(inode)[k];
    assert x[4] == 1 && x[5] == 8 && x[6] == DOT && x[7] == 0;
    assert forall k :: 8 <= k < 12 ==> x[k] == LE32(1)[k - 8];
    assert x[12] == 2 && x[13] == 248 && x[14] == DOT && x[15] == DOT && x[16] == 0;
  }

  lemma {:induction false} RootReadable(fs: Fs)
    requires Inv(fs)
    ensures Chain(fs.blocks[ROOT_BLOCK], 0)
  {
    assert IsDirectory(fs, ROOT_INODE);
  }

  lemma {:induction false} RootHasBlock(fs: Fs)
    requires Shape(fs) && Rooted(fs)
    ensures fs.inodes[ROOT_INODE].block == ROOT_BLOCK
  {
  }

  /** The buffer of a current directory: an empty string is followed by another NUL. */
  predicate CwdMemory(cwd: seq<byte>)
  {
    0 in cwd && (cwd[0] == 0 ==> |cwd| >= 2 && cwd[1] == 0)
  }

  lemma {:induction false} CwdPath(cwd: seq<byte>)
    requires CwdMemory(cwd)
    ensures 0 in [SLASH, 0] && Text([SLASH, 0]) == [SLASH]
    ensures Text(cwd) != [SLASH] ==> 0 in cwd[1..] && PathWords(Text(cwd[1..])) == CwdWords(Text(cwd))
    ensures Text(cwd) == [SLASH] ==> CwdWords(Text(cwd)) == []
  {
    TextLenIs([SLASH, 0], 1);
    Tokens.TextHolds(cwd);
    if cwd[0] == 0 {
      TextLenIs(cwd, 0);
      TextLenIs(cwd[1..], 0);
      assert SkipSlashes([]) == [];
      assert Tokens.Split([], SLASHES) == [];
    } else {
      Tokens.HoldsText(cwd, Text(cwd), 1);
    }
  }

  lemma {:induction false} BasenameText(name: seq<byte>)
    requires 0 in name
    ensures var slash := CStrings.LastIndex(Text(name), SLASH);
            && (slash == None ==> Basename(Text(name)) == Text(name))
            && (slash.Some? ==>
                  && slash.value + 1 <= |name| && 0 in name[slash.value + 1..]
                  && Text(name[slash.value + 1..]) == Basename(Text(name)))
  {
    hide CStrings.LastIndex;
    var slash := CStrings.LastIndex(Text(name), SLASH);
    if slash.Some? {
      Tokens.TextHolds(name);
      Tokens.HoldsText(name, Text(name), slash.value + 1);
    }
  }

  lemma {:induction false} RecordLengthByte(n: nat)
    ensures RoundUp((6 + n + 1) % 0x100, 4) == MinRec(n)
  {
  }

  /** The separate stores of the fields make up RecordBytes. */
  lemma {:induction false} RecordSplice(d: seq<byte>, d': seq<byte>, at: nat, e: Entry)
    requires e.inode < WORD && at + 7 + |e.name| % 0x100 <= |d| == |d'|
    requires var n := |e.name| % 0x100;
             var d1 := Splice(d, at, LE32(e.inode))[at + 4 := n][at + 5 := MinRec(n)];
             d' == Splice(Splice(d1, at + 6, e.name[..n]), at + 6 + n, [0])
    ensures d' == Splice(d, at, RecordBytes(e))
  {
    hide LE32, MinRec;
    var x, n := RecordBytes(e), |e.name| % 0x100;
    assert forall k :: 0 <= k < 4 ==> x[k] == LE32(e.inode)[k];
    assert x[4] == n && x[5] == MinRec(n) && x[6 + n] == 0;
    assert forall k :: 6 <= k < 6 + n ==> x[k] == e.name[k - 6];
  }

  lemma {:induction false} SlashDelimiter()
    ensures 0 in [SLASH, 0] && Tokens.Delims([SLASH, 0]) == SLASHES
  {
    TextLenIs([SLASH, 0], 1);
  }

  /** One component of a lookup. */
  lemma {:induction false} WalkInto(fs: Fs, i: nat, words: seq<seq<byte>>)
    requires Shape(fs) && i < MAX_INODES && words != [] && DirsOnly(fs, i, words)
    ensures fs.inodes[i].block == 0 ==> Walk(fs, i, words) == None
    ensures fs.inodes[i].block != 0 ==>
              && Searchable(fs, i)
              && var es := Listing(fs, i);
                 var k := IndexOf(es, words[0]);
                 if k == |es| then Walk(fs, i, words) == None
                 else es[k].inode < MAX_INODES && DirsOnly(fs, es[k].inode, words[1..])
                      && Walk(fs, i, words) == Walk(fs, es[k].inode, words[1..])
  {
    hide Chain, Entries, IndexOf;
  }

  lemma {:induction false} WalkNothing(fs: Fs, i: nat)
    requires Shape(fs) && i < MAX_INODES
    ensures Walk(fs, i, []) == Some(i)
  {
  }

  lemma {:induction false} EmptyPath(p: seq<byte>)
    requires 0 in p && p[0] == 0
    ensures Tokens.Split(Take(Text(p), PATH_COPY), SLASHES) == []
  {
    TextLenIs(p, 0);
  }

  method SkipLeading(path: seq<byte>) returns (p: seq<byte>)
    requires 0 in path
    ensures 0 in p && Text(p) == SkipSlashes(Text(path))
  {
    hide TextLen;
    p := path;
    while p[0] == SLASH
      invariant 0 in p && SkipSlashes(Text(p)) == SkipSlashes(Text(path))
      decreases |p|
    {
      Tokens.TextHolds(p);
      Tokens.HoldsText(p, Text(p), 1);
      p := p[1..];
    }
    Tokens.TextHolds(p);
  }
}
