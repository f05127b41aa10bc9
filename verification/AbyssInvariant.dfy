/** What every AbyssFS operation keeps: block ownership, the free count and well-formed directories whose
    links are unique. */
module AbyssInvariant {
  import opened Bytes
  import opened DirRecords
  import opened AbyssSpec

  /** The live inode `i` has the block `n`. */
  predicate Owns(fs: Fs, i: nat, n: nat)
  {
    Shape(fs) && Live(fs, i) && fs.inodes[i].block == n && n != 0
  }

  /** Blocks and live inodes with a block correspond one to one. */
  ghost predicate Owned(fs: Fs)
  {
    && (forall i: nat, n: nat :: Owns(fs, i, n) ==> FIRST_DATA <= n < TOTAL_BLOCKS && n in fs.used)
    && (forall i: nat, j: nat, n: nat :: Owns(fs, i, n) && Owns(fs, j, n) ==> i == j)
    && (forall n: nat :: n in fs.used && FIRST_DATA <= n ==> exists i: nat :: Owns(fs, i, n))
    && (forall n: nat :: n in fs.used ==> n < TOTAL_BLOCKS)
    && (forall n: nat :: n < FIRST_DATA ==> n in fs.used)
  }

  function ClearBlocks(fs: Fs): set<nat>
  {
    (set n: nat | n < TOTAL_BLOCKS && n !in fs.used)
  }

  /** The counter is one ahead, because abyssfs_init reserves the root block without counting it. */
  predicate Counted(fs: Fs)
  {
    fs.free == |ClearBlocks(fs)| + 1
  }

  predicate IsDirectory(fs: Fs, i: nat)
  {
    Shape(fs) && Dir(fs, i)
  }

  /** A readable listing that starts with "." and "..". */
  predicate GoodDirectory(fs: Fs, i: nat)
    requires Shape(fs)
  {
    Searchable(fs, i) && |Listing(fs, i)| >= 2 && Listing(fs, i)[..2] == Dots(i)
  }

  /** Entry `k` of directory `i`, not one of the dots, names inode `j`. */
  predicate Link(fs: Fs, i: nat, k: nat, j: nat)
  {
    IsDirectory(fs, i) && GoodDirectory(fs, i) && 2 <= k < |Listing(fs, i)| && Listing(fs, i)[k].inode == j
  }

  ghost predicate Linked(fs: Fs)
  {
    && (forall i: nat, k: nat, j: nat :: Link(fs, i, k, j) ==> ROOT_INODE < j < MAX_INODES && fs.inodes[j].mode != 0)
    && (forall i: nat, k: nat, i': nat, k': nat, j: nat :: Link(fs, i, k, j) && Link(fs, i', k', j) ==> i == i' && k == k')
  }

  ghost predicate Unlinked(fs: Fs, j: nat)
  {
    forall i: nat, k: nat :: !Link(fs, i, k, j)
  }

  predicate Rooted(fs: Fs)
    requires Shape(fs)
  {
    && fs.inodes[0].mode == 0
    && fs.inodes[ROOT_INODE].mode == DIR_MODE && fs.inodes[ROOT_INODE].block == ROOT_BLOCK
  }

  ghost predicate Inv(fs: Fs)
  {
    && Shape(fs) && Rooted(fs) && Owned(fs) && Counted(fs)
    && (forall i: nat :: IsDirectory(fs, i) ==> GoodDirectory(fs, i))
    && Linked(fs)
  }

  // ---- consequences ----

  function Owners(fs: Fs, n: nat): set<nat>
    requires Shape(fs)
  {
    set i: nat | i < MAX_INODES && Owns(fs, i, n)
  }

  /** A data block is marked in the bitmap exactly when one and only one live inode has it. */
  lemma {:induction false} MarkedIffOneOwner(fs: Fs, n: nat)
    requires Inv(fs) && FIRST_DATA <= n < TOTAL_BLOCKS
    ensures n in fs.used <==> |Owners(fs, n)| == 1
    ensures n !in fs.used <==> Owners(fs, n) == {}
  {
    if n in fs.used {
      var i: nat :| Owns(fs, i, n);
      assert Owners(fs, n) == {i};
    } else {
      assert forall i: nat :: !Owns(fs, i, n);
      assert Owners(fs, n) == {};
    }
  }

  // ---- elementary changes ----

  /** `fs'` has the same directories with the same listings. */
  ghost predicate SameDirectories(fs: Fs, fs': Fs)
    requires Shape(fs) && Shape(fs')
  {
    && (forall i: nat :: IsDirectory(fs', i) <==> IsDirectory(fs, i))
    && (forall i: nat :: IsDirectory(fs, i) && Searchable(fs, i) ==> Searchable(fs', i) && Listing(fs', i) == Listing(fs, i))
  }

  lemma {:induction false} SameLinks(fs: Fs, fs': Fs)
    requires Inv(fs) && Shape(fs') && SameDirectories(fs, fs')
    ensures forall i: nat :: IsDirectory(fs', i) ==> GoodDirectory(fs', i)
    ensures forall i: nat, k: nat, j: nat :: Link(fs', i, k, j) <==> Link(fs, i, k, j)
  {
  }

  lemma {:induction false} FreshInodeKeeps(fs: Fs)
    requires Inv(fs) && AllocInode(fs).0 != 0
    ensures var (n, fs') := AllocInode(fs);
            && n > ROOT_INODE && Inv(fs') && Unlinked(fs', n)
            && fs'.inodes[n] == Inode(NEW_MODE, 0, 0) && !Dir(fs', n)
  {
    var (n, fs') := AllocInode(fs);
    assert n != ROOT_INODE;
    assert SameDirectories(fs, fs') by {
      assert !DirBit(NEW_MODE) && !DirBit(0);
    }
    SameLinks(fs, fs');
    assert Owned(fs') by {
      assert forall i: nat, m: nat :: Owns(fs', i, m) <==> Owns(fs, i, m);
    }
    assert ClearBlocks(fs') == ClearBlocks(fs);
  }

  lemma {:induction false} OneBlockLess(fs: Fs, b: nat)
    requires b in ClearBlocks(fs)
    ensures var fs' := fs.(used := fs.used + {b}); |ClearBlocks(fs')| == |ClearBlocks(fs)| - 1
  {
    var fs' := fs.(used := fs.used + {b});
    assert ClearBlocks(fs') == ClearBlocks(fs) - {b};
  }

  lemma {:induction false} OneBlockMore(fs: Fs, b: nat)
    requires b < TOTAL_BLOCKS && b in fs.used
    ensures var fs' := fs.(used := fs.used - {b}); |ClearBlocks(fs')| == |ClearBlocks(fs)| + 1
  {
    var fs' := fs.(used := fs.used - {b});
    assert ClearBlocks(fs') == ClearBlocks(fs) + {b};
  }

  /** A directory does not share its block with any other live inode. */
  lemma {:induction false} DirectoryBlock(fs: Fs, i: nat, j: nat)
    requires Inv(fs) && Dir(fs, i) && Live(fs, j) && j != i
    ensures fs.inodes[j].block != fs.inodes[i].block && fs.inodes[i].block in fs.used
  {
    assert IsDirectory(fs, i);
    assert Owns(fs, i, fs.inodes[i].block);
    assert !Owns(fs, j, fs.inodes[i].block);
  }

  /** Taking the first clear block for the live inode `i`, which had none. */
  lemma {:induction false} NewBlockOwned(fs: Fs, i: nat, b: nat, fs': Fs)
    requires Inv(fs) && Live(fs, i) && fs.inodes[i].block == 0
    requires FIRST_DATA <= b < TOTAL_BLOCKS && b !in fs.used
    requires Shape(fs') && fs'.used == fs.used + {b} && fs'.free == fs.free - 1
    requires forall j: nat :: j < MAX_INODES && j != i ==> fs'.inodes[j] == fs.inodes[j]
    requires Live(fs', i) && fs'.inodes[i].block == b
    ensures Owned(fs') && Counted(fs')
  {
    assert forall j: nat, m: nat :: Owns(fs', j, m) <==> Owns(fs, j, m) || (j == i && m == b);
    forall n: nat | n in fs'.used && FIRST_DATA <= n
      ensures exists j: nat :: Owns(fs', j, n)
    {
      if n == b {
        assert Owns(fs', i, b);
      } else {
        var j: nat :| Owns(fs, j, n);
        assert Owns(fs', j, n);
      }
    }
    OneBlockLess(fs, b);
  }

  /** Writing through a handle on a live file. */
  lemma {:induction false} WriteKeeps(fs: Fs, i: nat, data: seq<byte>)
    requires Inv(fs) && Live(fs, i) && !Dir(fs, i)
    ensures Writable(fs, i)
    ensures var fs' := Write(fs, i, data).1; Inv(fs') && SameDirectories(fs, fs')
  {
    assert fs.inodes[i].block != 0 ==> Owns(fs, i, fs.inodes[i].block);
    var (written, fs') := Write(fs, i, data);
    if fs.inodes[i].block == 0 && AllocBlock(fs).0 == 0 {
      return;
    }
    forall j: nat | IsDirectory(fs, j)
      ensures Searchable(fs', j) && Listing(fs', j) == Listing(fs, j)
    {
      DirectoryBlock(fs, j, i);
    }
    assert SameDirectories(fs, fs');
    SameLinks(fs, fs');
    if fs.inodes[i].block == 0 {
      NewBlockOwned(fs, i, AllocBlock(fs).0, fs');
    } else {
      assert forall j: nat, m: nat :: Owns(fs', j, m) <==> Owns(fs, j, m);
      assert ClearBlocks(fs') == ClearBlocks(fs);
    }
  }

  /** mkdir's new directory: a listing of "." and "..", provided the length byte behind them is zero. */
  lemma {:induction false} MadeDirectory(fs: Fs, n: nat, b: nat)
    requires Shape(fs) && n < MAX_INODES && fs.inodes[n].mode == NEW_MODE
    requires FIRST_DATA <= b < TOTAL_BLOCKS && fs.blocks[b][261] == 0
    ensures var fs' := MakeDir(fs, n, b);
            && IsDirectory(fs', n) && GoodDirectory(fs', n) && Listing(fs', n) == Dots(n)
            && fs'.inodes[n] == Inode(NEW_MODE + DIR_MODE, BLOCK_SIZE, b)
            && fs'.blocks[b][5] != 0
  {
    hide Chain, Entries, DotRecords;
    var fs' := MakeDir(fs, n, b);
    assert fs'.blocks[b][..17] == DotRecords(n);
    FreshDirectory(fs'.blocks[b], n);
    assert Dots(n)[..2] == Dots(n);
  }

  lemma {:induction false} MkdirMadeKeeps(fs: Fs)
    requires Inv(fs) && MkdirMade(fs).Some?
    requires fs.blocks[ClearBlock(fs.used, FIRST_DATA)][261] == 0
    ensures var (n, fs') := MkdirMade(fs).value;
            && n > ROOT_INODE && fs.inodes[n].mode == 0 && fs'.inodes[n].mode != 0
            && Inv(fs') && Unlinked(fs', n) && IsDirectory(fs', n) && Listing(fs', n) == Dots(n)
            && (forall i: nat :: IsDirectory(fs, i) ==> IsDirectory(fs', i) && Listing(fs', i) == Listing(fs, i))
            && (forall i: nat :: Live(fs, i) ==> fs'.inodes[i] == fs.inodes[i])
  {
    hide Chain, Entries, DotRecords;
    var (n, fs1) := AllocInode(fs);
    FreshInodeKeeps(fs);
    var (b, fs2) := AllocBlock(fs1);
    var fs' := MakeDir(fs2, n, b);
    MadeDirectory(fs2, n, b);
    NewBlockOwned(fs1, n, b, fs');
    forall i: nat | IsDirectory(fs, i)
      ensures IsDirectory(fs', i) && Searchable(fs', i) && Listing(fs', i) == Listing(fs, i)
    {
      assert IsDirectory(fs1, i);
      DirectoryBlock(fs1, i, n);
    }
    assert forall i: nat :: IsDirectory(fs', i) ==> i == n || IsDirectory(fs, i);
    assert forall i: nat, k: nat, j: nat :: Link(fs', i, k, j) ==> Link(fs, i, k, j);
  }

  /** Room behind the minimal records of `d` for a record with this name and the next length byte. */
  predicate Roomy(fs: Fs, d: nat, name: seq<byte>)
    requires Shape(fs)
  {
    MinSize(Listing(fs, d)) + MinRec(|name|) + 6 <= BLOCK_SIZE
  }

  /** create_file in the directory `d`, for an inode no directory names yet. */
  lemma {:induction false} AddEntryKeeps(fs: Fs, d: nat, e: Entry)
    requires Inv(fs) && Dir(fs, d) && e.inode < WORD && Fits(fs, d, e.name) && |e.name| <= NAME_MAX && Roomy(fs, d, e.name)
    requires ROOT_INODE < e.inode < MAX_INODES && fs.inodes[e.inode].mode != 0 && Unlinked(fs, e.inode)
    ensures var fs' := AddEntry(fs, d, e);
            && Inv(fs') && fs'.inodes == fs.inodes && fs'.used == fs.used
            && (forall i: nat :: IsDirectory(fs, i) && i != d ==> Listing(fs', i) == Listing(fs, i))
            && IsDirectory(fs', d) && Listing(fs', d) == Listing(fs, d) + [e]
  {
    hide Chain, Entries, MinRec, MinSize, Appended;
    var fs' := AddEntry(fs, d, e);
    assert IsDirectory(fs, d);
    AppendedEntries(fs.blocks[fs.inodes[d].block], e);
    var old', new' := Listing(fs, d), Listing(fs', d);
    assert new' == old' + [e] && new'[..2] == old'[..2];
    forall i: nat | IsDirectory(fs, i) && i != d
      ensures Searchable(fs', i) && Listing(fs', i) == Listing(fs, i)
    {
      DirectoryBlock(fs, i, d);
    }
    assert forall i: nat :: IsDirectory(fs', i) <==> IsDirectory(fs, i);
    forall i: nat, k: nat, j: nat | Link(fs', i, k, j)
      ensures Link(fs, i, k, j) || (i == d && k == |old'| && j == e.inode)
    {
      if i == d && k < |old'| {
        assert new'[k] == old'[k];
      }
    }
    assert Owned(fs') by {
      assert forall i: nat, m: nat :: Owns(fs', i, m) <==> Owns(fs, i, m);
    }
    assert ClearBlocks(fs') == ClearBlocks(fs);
  }

  /** unlink of a name other than the dots: the entry goes, its inode and block become free, and nothing
      else that was linked is lost. */
  lemma {:induction false} UnlinkKeeps(fs: Fs, path: seq<byte>)
    requires Inv(fs) && SkipSlashes(path) != [DOT] && SkipSlashes(path) != [DOT, DOT]
    ensures Chain(fs.blocks[ROOT_BLOCK], 0)
    ensures Inv(Unlink(fs, path).1)
  {
    hide Chain, Entries, Deleted, FindAt, IndexOf, Without;
    assert IsDirectory(fs, ROOT_INODE);
    var name, root := SkipSlashes(path), fs.blocks[ROOT_BLOCK];
    var es := Listing(fs, ROOT_INODE);
    var k := IndexOf(es, name);
    if k < |es| {
      assert es[0] == es[..2][0] && es[1] == es[..2][1];
      assert k >= 2;
      var j := es[k].inode;
      assert Link(fs, ROOT_INODE, k, j);
      UnlinkedRoot(fs, name);
      ReleaseKeeps(fs, fs.(blocks := fs.blocks[ROOT_BLOCK := Deleted(root, name)]), k, j);
      FindAgrees(root, 0, name);
    }
  }

  lemma {:induction false} UnlinkedRoot(fs: Fs, name: seq<byte>)
    requires Inv(fs)
    requires var k := IndexOf(Listing(fs, ROOT_INODE), name); 2 <= k < |Listing(fs, ROOT_INODE)|
    ensures Chain(fs.blocks[ROOT_BLOCK], 0) && fs.blocks[ROOT_BLOCK][FindAt(fs.blocks[ROOT_BLOCK], 0, name) + 5] != 0
    ensures var fs' := fs.(blocks := fs.blocks[ROOT_BLOCK := Deleted(fs.blocks[ROOT_BLOCK], name)]);
            var es, k := Listing(fs, ROOT_INODE), IndexOf(Listing(fs, ROOT_INODE), name);
            && Searchable(fs', ROOT_INODE) && Listing(fs', ROOT_INODE) == es[..k] + es[k + 1..]
  {
    hide Chain, Entries, Deleted, FindAt, IndexOf, Without;
    assert IsDirectory(fs, ROOT_INODE);
    FindAgrees(fs.blocks[ROOT_BLOCK], 0, name);
    DeletedEntries(fs.blocks[ROOT_BLOCK], name);
    WithoutRemovesFirst(Listing(fs, ROOT_INODE), name);
  }

  lemma {:induction false} ReleaseKeeps(fs: Fs, fs1: Fs, k: nat, j: nat)
    requires Inv(fs) && Link(fs, ROOT_INODE, k, j)
    requires Shape(fs1) && fs1 == fs.(blocks := fs1.blocks)
    requires forall n :: FIRST_DATA <= n < TOTAL_BLOCKS && n != ROOT_BLOCK ==> fs1.blocks[n] == fs.blocks[n]
    requires var es := Listing(fs, ROOT_INODE);
             Searchable(fs1, ROOT_INODE) && Listing(fs1, ROOT_INODE) == es[..k] + es[k + 1..]
    ensures Inv(Release(fs1, j))
  {
    hide Chain, Entries;
    var fs' := Release(fs1, j);
    var es, es', b := Listing(fs, ROOT_INODE), Listing(fs1, ROOT_INODE), fs.inodes[j].block;
    forall i: nat, m: nat
      ensures Owns(fs', i, m) <==> Owns(fs, i, m) && i != j
    {
    }
    assert b != 0 ==> Owns(fs, j, b);
    OwnedAfterRelease(fs, fs', j);
    forall i: nat | IsDirectory(fs', i)
      ensures IsDirectory(fs, i) && i != j && Searchable(fs', i)
      ensures Listing(fs', i) == if i == ROOT_INODE then es' else Listing(fs, i)
    {
      assert !DirBit(0);
      if i != ROOT_INODE {
        DirectoryBlock(fs, i, ROOT_INODE);
      }
    }
    assert es'[..2] == es[..2];
    forall i: nat, a: nat, x: nat | Link(fs', i, a, x)
      ensures Link(fs, i, if i == ROOT_INODE && a >= k then a + 1 else a, x) && x != j
    {
      if i == ROOT_INODE {
        assert es'[a] == es[if a >= k then a + 1 else a];
      }
    }
    assert forall i: nat :: IsDirectory(fs', i) ==> GoodDirectory(fs', i);
  }

  lemma {:induction false} OwnedAfterRelease(fs: Fs, fs': Fs, j: nat)
    requires Inv(fs) && Shape(fs') && Live(fs, j)
    requires forall i: nat, m: nat :: Owns(fs', i, m) <==> Owns(fs, i, m) && i != j
    requires var b := fs.inodes[j].block;
             if b == 0 then fs'.used == fs.used && fs'.free == fs.free
             else fs'.used == fs.used - {b} && fs'.free == fs.free + 1
    ensures Owned(fs') && Counted(fs')
  {
    var b := fs.inodes[j].block;
    assert b != 0 ==> Owns(fs, j, b);
    forall n: nat | n in fs'.used && FIRST_DATA <= n
      ensures exists i: nat :: Owns(fs', i, n)
    {
      var i: nat :| Owns(fs, i, n);
      assert Owns(fs', i, n);
    }
    if b != 0 {
      OneBlockMore(fs, b);
    }
    assert ClearBlocks(fs') == ClearBlocks(fs.(used := fs'.used));
  }
}
