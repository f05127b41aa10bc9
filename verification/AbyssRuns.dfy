/** Whole runs of AbyssFS: every reachable state keeps the invariant, and paths keep their meaning. */
module AbyssRuns {
  import opened Bytes
  import opened DirRecords
  import opened AbyssSpec
  import opened AbyssInvariant
  import CStrings
  import Tokens

  // ---- lookups across operations ----

  /** Inodes that were live are untouched, and listings of directories have at most grown at the end. */
  ghost predicate Extends(fs: Fs, fs': Fs)
  {
    && Shape(fs) && Shape(fs')
    && (forall i: nat :: Live(fs, i) ==> fs'.inodes[i] == fs.inodes[i])
    && (forall i: nat :: IsDirectory(fs, i) ==> Searchable(fs', i) && Listing(fs, i) <= Listing(fs', i))
  }

  ghost predicate SameListings(fs: Fs, fs': Fs)
  {
    Extends(fs, fs') && forall i: nat :: IsDirectory(fs, i) ==> Listing(fs', i) == Listing(fs, i)
  }

  lemma {:induction false} EntryIsLive(fs: Fs, i: nat, k: nat)
    requires Inv(fs) && Dir(fs, i) && k < |Listing(fs, i)|
    ensures Live(fs, Listing(fs, i)[k].inode)
  {
    assert IsDirectory(fs, i);
    var es := Listing(fs, i);
    assert es[0] == es[..2][0] && es[1] == es[..2][1];
    if k >= 2 {
      assert Link(fs, i, k, es[k].inode);
    }
  }

  lemma {:induction false} IndexOfPrefix(es: seq<Entry>, es': seq<Entry>, name: seq<byte>)
    requires es <= es' && IndexOf(es, name) < |es|
    ensures IndexOf(es', name) == IndexOf(es, name)
  {
    var k, k' := IndexOf(es, name), IndexOf(es', name);
    assert es'[k] == es[k];
    assert k' < |es| ==> es[k'] == es'[k'];
  }

  /** A path through directories that resolved before still resolves to the same inode. */
  lemma {:induction false} WalkExtends(fs: Fs, fs': Fs, i: nat, words: seq<seq<byte>>)
    requires Inv(fs) && Extends(fs, fs') && Live(fs, i)
    requires DirsOnly(fs, i, words)
    ensures Walk(fs, i, words).Some? ==> Walk(fs', i, words) == Walk(fs, i, words) && Live(fs, Walk(fs, i, words).value)
    ensures SameListings(fs, fs') ==> Walk(fs', i, words) == Walk(fs, i, words) && DirsOnly(fs', i, words)
    decreases |words|
  {
    hide IndexOf;
    if words != [] && fs.inodes[i].block != 0 {
      assert IsDirectory(fs, i);
      var es, es' := Listing(fs, i), Listing(fs', i);
      var k := IndexOf(es, words[0]);
      if k < |es| {
        EntryIsLive(fs, i, k);
        IndexOfPrefix(es, es', words[0]);
        assert es'[k] == es[k];
        WalkExtends(fs, fs', es[k].inode, words[1..]);
      }
    }
  }

  // ---- when the operations may be called ----

  /** The name the new entry gets. */
  function NewName(path: seq<byte>): seq<byte>
  {
    Basename(SkipSlashes(path))
  }

  /** The new name has at most 245 bytes, and behind its record in the current directory there is room for the next
      length byte: what create_file needs for a well-formed directory, and does not check. */
  predicate Enterable(fs: Fs, cwd: seq<byte>, name: seq<byte>)
    requires Shape(fs)
  {
    && CanEnter(fs, cwd, name) && |name| <= NAME_MAX
    && var d := CwdInode(fs, cwd);
       d.Some? && fs.inodes[d.value].block != 0 ==> Roomy(fs, d.value, name)
  }

  predicate CreateOk(fs: Fs, cwd: seq<byte>, path: seq<byte>)
    requires Shape(fs)
  {
    AllocInode(fs).0 != 0 ==> Enterable(fs, cwd, NewName(path))
  }

  /** mkdir does not clear the block it takes, so the byte behind its two records must happen to be zero. */
  predicate MkdirOk(fs: Fs, cwd: seq<byte>, path: seq<byte>)
    requires Shape(fs)
  {
    MkdirMade(fs).Some? ==>
      Enterable(fs, cwd, NewName(path)) && fs.blocks[ClearBlock(fs.used, FIRST_DATA)][261] == 0
  }

  /** Writes go through handles of live files. */
  predicate WriteOk(fs: Fs, i: nat)
    requires Shape(fs)
  {
    Live(fs, i) && !Dir(fs, i)
  }

  predicate UnlinkOk(path: seq<byte>)
  {
    SkipSlashes(path) != [DOT] && SkipSlashes(path) != [DOT, DOT]
  }

  // ---- create ----

  /** Entering a name is possible after a change that keeps all listings, whatever became of other inodes. */
  lemma {:induction false} CanEnterStill(fs: Fs, fs': Fs, cwd: seq<byte>, name: seq<byte>)
    requires Inv(fs) && SameListings(fs, fs') && CanEnter(fs, cwd, name)
    requires forall i: nat :: IsDirectory(fs, i) ==> IsDirectory(fs', i)
    ensures CanEnter(fs', cwd, name) && CwdInode(fs', cwd) == CwdInode(fs, cwd)
    ensures CwdInode(fs, cwd).Some? ==> fs'.inodes[CwdInode(fs, cwd).value] == fs.inodes[CwdInode(fs, cwd).value]
    ensures Enterable(fs, cwd, name) ==> Enterable(fs', cwd, name)
  {
    hide Chain, Entries, MinSize, MinRec, Walk, DirsOnly, CwdWords;
    WalkExtends(fs, fs', ROOT_INODE, CwdWords(cwd));
    var d := CwdInode(fs, cwd);
    if d.Some? && fs.inodes[d.value].block != 0 {
      assert IsDirectory(fs, d.value);
      NonEmptyListing(fs, fs', d.value);
    }
  }

  lemma {:induction false} NonEmptyListing(fs: Fs, fs': Fs, i: nat)
    requires Inv(fs) && SameListings(fs, fs') && IsDirectory(fs, i)
    ensures Searchable(fs', i) && fs'.blocks[fs'.inodes[i].block][5] != 0
  {
    assert |Listing(fs, i)| >= 2;
    Unfold(fs'.blocks[fs'.inodes[i].block], 0);
  }

  lemma {:induction false} AllocInodeExtends(fs: Fs)
    requires Inv(fs)
    ensures var fs1 := AllocInode(fs).1;
            && Inv(fs1) && SameListings(fs, fs1)
            && (forall i: nat :: IsDirectory(fs, i) ==> IsDirectory(fs1, i))
  {
    hide Chain, Entries;
    if AllocInode(fs).0 != 0 {
      FreshInodeKeeps(fs);
    }
    assert Inv(fs);
  }

  /** What create_file adds for the inode `e.inode`, taken in the step from `fs` to `fs1`. */
  lemma {:induction false} EnterKeeps(fs: Fs, fs1: Fs, cwd: seq<byte>, e: Entry)
    requires Inv(fs) && Inv(fs1) && SameListings(fs, fs1) && Enterable(fs, cwd, e.name)
    requires forall i: nat :: IsDirectory(fs, i) ==> IsDirectory(fs1, i)
    requires ROOT_INODE < e.inode < MAX_INODES && fs.inodes[e.inode].mode == 0 != fs1.inodes[e.inode].mode
    requires Unlinked(fs1, e.inode)
    ensures CanEnter(fs1, cwd, e.name)
    ensures var (ok, fs') := CreateFile(fs1, cwd, e);
            var d := CwdInode(fs, cwd);
            && Inv(fs') && Extends(fs, fs') && fs'.inodes == fs1.inodes && fs'.used == fs1.used
            && (!ok ==> fs' == fs1)
            && (ok ==>
                  && d.Some? && IsDirectory(fs, d.value) && d.value != e.inode
                  && Listing(fs', d.value) == Listing(fs, d.value) + [e]
                  && forall i: nat :: IsDirectory(fs1, i) && i != d.value ==> Listing(fs', i) == Listing(fs1, i))
  {
    hide Chain, Entries, MinSize, MinRec, Walk, DirsOnly, CwdWords, Appended;
    CanEnterStill(fs, fs1, cwd, e.name);
    var d := CwdInode(fs, cwd);
    if d.Some? && fs1.inodes[d.value].block != 0 {
      assert IsDirectory(fs, d.value);
      AddEntryKeeps(fs1, d.value, e);
    }
  }

  /** What create does to the directories: nothing but one new entry, in the current directory. */
  lemma {:induction false} CreateKeeps(fs: Fs, cwd: seq<byte>, path: seq<byte>)
    requires Inv(fs) && CreateOk(fs, cwd, path)
    ensures AllocInode(fs).0 != 0 ==> CanEnter(AllocInode(fs).1, cwd, NewName(path))
    ensures var (h, fs') := Create(fs, cwd, path);
            && Inv(fs') && Extends(fs, fs')
            && (h == None ==> SameListings(fs, fs'))
            && (h.Some? ==>
                  var d := CwdInode(fs, cwd);
                  && ROOT_INODE < h.value < MAX_INODES && fs.inodes[h.value].mode == 0
                  && fs'.inodes[h.value] == Inode(NEW_MODE, 0, 0)
                  && d.Some? && IsDirectory(fs, d.value)
                  && Listing(fs', d.value) == Listing(fs, d.value) + [Entry(h.value, NewName(path))]
                  && forall i: nat :: IsDirectory(fs, i) && i != d.value ==> Listing(fs', i) == Listing(fs, i))
  {
    hide Chain, Entries, CanEnter, CreateFile, Enterable;
    var (n, fs1) := AllocInode(fs);
    AllocInodeExtends(fs);
    if n != 0 {
      FreshInodeKeeps(fs);
      EnterKeeps(fs, fs1, cwd, Entry(n, NewName(path)));
    }
  }

  // ---- mkdir ----

  lemma {:induction false} MkdirMadeExtends(fs: Fs)
    requires Inv(fs) && MkdirMade(fs).Some?
    requires fs.blocks[ClearBlock(fs.used, FIRST_DATA)][261] == 0
    ensures var (n, fs1) := MkdirMade(fs).value;
            && Inv(fs1) && SameListings(fs, fs1) && Unlinked(fs1, n) && n > ROOT_INODE
            && fs.inodes[n].mode == 0 && IsDirectory(fs1, n) && Listing(fs1, n) == Dots(n)
            && (forall i: nat :: IsDirectory(fs, i) ==> IsDirectory(fs1, i))
  {
    hide Chain, Entries;
    MkdirMadeKeeps(fs);
  }

  lemma {:induction false} MkdirKeeps(fs: Fs, cwd: seq<byte>, path: seq<byte>)
    requires Inv(fs) && MkdirOk(fs, cwd, path)
    ensures var m := MkdirMade(fs); m.Some? ==> CanEnter(m.value.1, cwd, NewName(path))
    ensures var (ok, fs') := Mkdir(fs, cwd, path);
            && Inv(fs') && Extends(fs, fs')
            && (!ok ==> SameListings(fs, fs'))
            && (ok ==>
                  var d := CwdInode(fs, cwd);
                  var n := AllocInode(fs).0;
                  && n > ROOT_INODE && fs.inodes[n].mode == 0
                  && IsDirectory(fs', n) && Listing(fs', n) == Dots(n)
                  && d.Some? && IsDirectory(fs, d.value)
                  && Listing(fs', d.value) == Listing(fs, d.value) + [Entry(n, NewName(path))]
                  && forall i: nat :: IsDirectory(fs, i) && i != d.value ==> Listing(fs', i) == Listing(fs, i))
  {
    hide Chain, Entries, CanEnter, CreateFile, Enterable, MakeDir;
    AllocInodeExtends(fs);
    if MkdirMade(fs).Some? {
      var (n, fs1) := MkdirMade(fs).value;
      MkdirMadeExtends(fs);
      EnterKeeps(fs, fs1, cwd, Entry(n, NewName(path)));
    }
  }

  lemma {:induction false} WalkOne(fs: Fs, i: nat, words: seq<seq<byte>>, w: seq<byte>, j: nat)
    requires Shape(fs) && i < MAX_INODES && Walk(fs, i, words) == Some(j)
    ensures Walk(fs, i, words + [w]) == Walk(fs, j, [w])
    decreases |words|
  {
    hide Searchable, Listing;
    if words == [] {
      assert words + [w] == [w];
    } else {
      var es := Listing(fs, i);
      assert (words + [w])[0] == words[0] && (words + [w])[1..] == words[1..] + [w];
      WalkOne(fs, es[IndexOf(es, words[0])].inode, words[1..], w, j);
    }
  }

  lemma {:induction false} FreshNameFound(es: seq<Entry>, e: Entry)
    requires IndexOf(es, e.name) == |es|
    ensures IndexOf(es + [e], e.name) == |es|
  {
    if es != [] {
      FreshNameFound(es[1..], e);
      assert (es + [e])[1..] == es[1..] + [e];
    }
  }

  /** The current directory exists and has no entry called `name`. */
  predicate FreshName(fs: Fs, cwd: seq<byte>, name: seq<byte>)
    requires Shape(fs)
  {
    var d := CwdInode(fs, cwd);
    d.Some? && IndexOf(Listing(fs, d.value), name) == |Listing(fs, d.value)|
  }

  /** The new last entry of the current directory is found under the path of that directory and its name, if the name
      was fresh. */
  lemma {:induction false} EntryResolves(fs: Fs, fs': Fs, cwd: seq<byte>, e: Entry)
    requires Inv(fs) && Extends(fs, fs') && DirsOnly(fs, ROOT_INODE, CwdWords(cwd)) && FreshName(fs, cwd, e.name)
    requires var d := CwdInode(fs, cwd).value;
             IsDirectory(fs, d) && e.inode < MAX_INODES && Listing(fs', d) == Listing(fs, d) + [e]
    ensures Walk(fs', ROOT_INODE, CwdWords(cwd) + [e.name]) == Some(e.inode)
  {
    hide Chain, Entries, CwdWords, IndexOf, DirsOnly;
    var d := CwdInode(fs, cwd).value;
    WalkExtends(fs, fs', ROOT_INODE, CwdWords(cwd));
    WalkOne(fs', ROOT_INODE, CwdWords(cwd), e.name, d);
    FreshNameFound(Listing(fs, d), e);
    WalkHere(fs', d, e.name);
  }

  /** After mkdir of a fresh name, looking the name up behind the path of the current directory finds the
      new inode, whose listing is "." and "..". */
  lemma {:induction false} MkdirResolves(fs: Fs, cwd: seq<byte>, path: seq<byte>)
    requires Inv(fs) && MkdirOk(fs, cwd, path) && DirsOnly(fs, ROOT_INODE, CwdWords(cwd))
    requires FreshName(fs, cwd, NewName(path))
    ensures var m := MkdirMade(fs); m.Some? ==> CanEnter(m.value.1, cwd, NewName(path))
    ensures var (ok, fs') := Mkdir(fs, cwd, path);
            var n := AllocInode(fs).0;
            ok ==> Walk(fs', ROOT_INODE, CwdWords(cwd) + [NewName(path)]) == Some(n) && Listing(fs', n) == Dots(n)
  {
    hide Chain, Entries, CwdWords, IndexOf, CanEnter, Enterable, Mkdir, DirsOnly, Walk, FreshName;
    MkdirKeeps(fs, cwd, path);
    var (ok, fs') := Mkdir(fs, cwd, path);
    if ok {
      EntryResolves(fs, fs', cwd, Entry(AllocInode(fs).0, NewName(path)));
    }
  }

  /** After create of a fresh name, the lookup finds the inode of the new handle. */
  lemma {:induction false} CreateResolves(fs: Fs, cwd: seq<byte>, path: seq<byte>)
    requires Inv(fs) && CreateOk(fs, cwd, path) && DirsOnly(fs, ROOT_INODE, CwdWords(cwd))
    requires FreshName(fs, cwd, NewName(path))
    ensures AllocInode(fs).0 != 0 ==> CanEnter(AllocInode(fs).1, cwd, NewName(path))
    ensures var (h, fs') := Create(fs, cwd, path);
            h.Some? ==> Walk(fs', ROOT_INODE, CwdWords(cwd) + [NewName(path)]) == h
  {
    hide Chain, Entries, CwdWords, IndexOf, CanEnter, Enterable, Create, DirsOnly, Walk, FreshName;
    CreateKeeps(fs, cwd, path);
    var (h, fs') := Create(fs, cwd, path);
    if h.Some? {
      EntryResolves(fs, fs', cwd, Entry(h.value, NewName(path)));
    }
  }

  /** "/" and a name, as mkdir and get_inode_by_path read it. */
  lemma {:induction false} RootPath(name: seq<byte>)
    requires name != [] && SLASH !in name && |name| <= PATH_COPY
    ensures PathWords([SLASH] + name) == [name] && NewName([SLASH] + name) == name
  {
    var path := [SLASH] + name;
    assert path[1..] == name && name[0] in name;
    assert SkipSlashes(path) == SkipSlashes(path[1..]) == name;
    assert Take(name, PATH_COPY) == name;
    Tokens.SplitOne(name, SLASHES);
  }

  /** After mkdir of the fresh path "/name" in the root directory, get_inode_by_path of that path returns the
      new inode, and it lists "." and "..". */
  lemma {:induction false} MkdirThenLookup(fs: Fs, name: seq<byte>)
    requires Inv(fs) && name != [] && SLASH !in name && |name| <= PATH_COPY
    requires MkdirOk(fs, [SLASH], [SLASH] + name) && FreshName(fs, [SLASH], name)
    ensures var m := MkdirMade(fs); m.Some? ==> CanEnter(m.value.1, [SLASH], Basename(SkipSlashes([SLASH] + name)))
    ensures var (ok, fs') := Mkdir(fs, [SLASH], [SLASH] + name);
            ok ==> Walk(fs', ROOT_INODE, PathWords([SLASH] + name)) == Some(AllocInode(fs).0)
                   && Listing(fs', AllocInode(fs).0) == Dots(AllocInode(fs).0)
  {
    hide Mkdir, CanEnter, Walk, DirsOnly, FreshName;
    RootPath(name);
    NoWords(fs);
    MkdirResolves(fs, [SLASH], [SLASH] + name);
    assert [] + [name] == [name];
  }

  lemma {:induction false} NoWords(fs: Fs)
    requires Shape(fs)
    ensures CwdWords([SLASH]) == [] && DirsOnly(fs, ROOT_INODE, [])
  {
  }

  /** Neither create nor mkdir changes what an old path through directories means. */
  lemma {:induction false} OldPathsSurvive(fs: Fs, cwd: seq<byte>, path: seq<byte>, words: seq<seq<byte>>, j: nat)
    requires Inv(fs) && DirsOnly(fs, ROOT_INODE, words) && Walk(fs, ROOT_INODE, words) == Some(j)
    ensures CreateOk(fs, cwd, path) ==>
              && (AllocInode(fs).0 != 0 ==> CanEnter(AllocInode(fs).1, cwd, NewName(path)))
              && Walk(Create(fs, cwd, path).1, ROOT_INODE, words) == Some(j)
    ensures MkdirOk(fs, cwd, path) ==>
              && (MkdirMade(fs).Some? ==> CanEnter(MkdirMade(fs).value.1, cwd, NewName(path)))
              && Walk(Mkdir(fs, cwd, path).1, ROOT_INODE, words) == Some(j)
  {
    hide Chain, Entries, MinSize, MinRec, CwdWords, Appended, MakeDir, IndexOf, CanEnter, Mkdir, Create, DirsOnly, Walk;
    if CreateOk(fs, cwd, path) {
      CreateKeeps(fs, cwd, path);
      WalkExtends(fs, Create(fs, cwd, path).1, ROOT_INODE, words);
    }
    if MkdirOk(fs, cwd, path) {
      MkdirKeeps(fs, cwd, path);
      WalkExtends(fs, Mkdir(fs, cwd, path).1, ROOT_INODE, words);
    }
  }

  lemma {:induction false} WalkHere(fs: Fs, i: nat, w: seq<byte>)
    requires Shape(fs) && Searchable(fs, i) && IndexOf(Listing(fs, i), w) < |Listing(fs, i)|
    requires Listing(fs, i)[IndexOf(Listing(fs, i), w)].inode < MAX_INODES
    ensures Walk(fs, i, [w]) == Some(Listing(fs, i)[IndexOf(Listing(fs, i), w)].inode)
  {
    var j := Listing(fs, i)[IndexOf(Listing(fs, i), w)].inode;
    assert Walk(fs, j, [w][1..]) == Some(j);
  }

  // ---- unlink ----

  /** unlink takes away exactly the first entry of that name and frees exactly the inode it named. */
  lemma {:induction false} UnlinkExact(fs: Fs, path: seq<byte>)
    requires Inv(fs) && UnlinkOk(path)
    requires IndexOf(Listing(fs, ROOT_INODE), SkipSlashes(path)) < |Listing(fs, ROOT_INODE)|
    ensures Chain(fs.blocks[ROOT_BLOCK], 0)
    ensures var (ok, fs') := Unlink(fs, path);
            var es := Listing(fs, ROOT_INODE);
            var j := es[IndexOf(es, SkipSlashes(path))].inode;
            && ok && Live(fs, j) && ROOT_INODE < j && fs'.inodes == fs.inodes[j := fs.inodes[j].(mode := 0)]
            && (if fs.inodes[j].block == 0 then fs'.used == fs.used && fs'.free == fs.free
                else fs'.used == fs.used - {fs.inodes[j].block} && fs'.free == fs.free + 1)
            && Listing(fs', ROOT_INODE) == Without(es, SkipSlashes(path))
            && (forall i: nat :: IsDirectory(fs, i) && i != ROOT_INODE && i != j ==>
                  IsDirectory(fs', i) && Listing(fs', i) == Listing(fs, i))
  {
    hide Chain, Entries, Deleted, FindAt, IndexOf, Without;
    UnlinkKeeps(fs, path);
    assert IsDirectory(fs, ROOT_INODE);
    var name, es := SkipSlashes(path), Listing(fs, ROOT_INODE);
    var k := IndexOf(es, name);
    assert es[0] == es[..2][0] && es[1] == es[..2][1];
    assert Link(fs, ROOT_INODE, k, es[k].inode);
    assert fs.inodes[es[k].inode].block != 0 ==> Owns(fs, es[k].inode, fs.inodes[es[k].inode].block);
    UnlinkedRoot(fs, name);
    WithoutRemovesFirst(es, name);
    forall i: nat | IsDirectory(fs, i) && i != ROOT_INODE
      ensures fs.inodes[i].block != ROOT_BLOCK
    {
      DirectoryBlock(fs, i, ROOT_INODE);
    }
  }

  lemma {:induction false} WithoutLast(es: seq<Entry>, e: Entry)
    requires IndexOf(es, e.name) == |es|
    ensures Without(es + [e], e.name) == es
  {
    FreshNameFound(es, e);
    WithoutRemovesFirst(es + [e], e.name);
  }

  /** unlink undoes a mkdir of a fresh name in the root: the same listings, marked blocks, free count and
      free inodes as before. */
  lemma {:induction false} UnlinkUndoesMkdir(fs: Fs, path: seq<byte>)
    requires Inv(fs) && MkdirOk(fs, [SLASH], path) && MkdirMade(fs).Some? && UnlinkOk(NewName(path))
    requires FreshName(fs, [SLASH], NewName(path))
    ensures CanEnter(MkdirMade(fs).value.1, [SLASH], NewName(path))
    ensures var (ok, fs1) := Mkdir(fs, [SLASH], path);
            Chain(fs1.blocks[ROOT_BLOCK], 0) && ok &&
            var (ok', fs2) := Unlink(fs1, NewName(path));
            && ok' && fs2.used == fs.used && fs2.free == fs.free
            && (forall i: nat :: Live(fs2, i) <==> Live(fs, i))
            && (forall i: nat :: IsDirectory(fs, i) ==> IsDirectory(fs2, i) && Listing(fs2, i) == Listing(fs, i))
  {
    hide Chain, Entries, MakeDir, IndexOf, CanEnter, Enterable, Without, Mkdir, Unlink, PathWords, Listing, MkdirOk;
    hide Owned, Linked, Counted, GoodDirectory;
    var name, n := NewName(path), AllocInode(fs).0;
    NewNameHasNoSlash(path);
    assert CwdInode(fs, [SLASH]) == Some(ROOT_INODE);
    assert IsDirectory(fs, ROOT_INODE);
    MkdirKeeps(fs, [SLASH], path);
    MkdirInRoot(fs, path);
    var fs1 := Mkdir(fs, [SLASH], path).1;
    var es := Listing(fs, ROOT_INODE);
    FreshNameFound(es, Entry(n, name));
    WithoutLast(es, Entry(n, name));
    UnlinkExact(fs1, name);
    Undone(fs, fs1, Unlink(fs1, name).1, n);
  }

  lemma {:induction false} Undone(fs: Fs, fs1: Fs, fs2: Fs, n: nat)
    requires Shape(fs) && Shape(fs1) && Shape(fs2) && ROOT_INODE < n < MAX_INODES && fs.inodes[n].mode == 0
    requires IsDirectory(fs, ROOT_INODE) && Listing(fs2, ROOT_INODE) == Listing(fs, ROOT_INODE)
    requires fs1.inodes == fs.inodes[n := fs1.inodes[n]] && fs2.inodes == fs1.inodes[n := fs1.inodes[n].(mode := 0)]
    requires forall i: nat :: IsDirectory(fs, i) && i != ROOT_INODE ==> Listing(fs1, i) == Listing(fs, i)
    requires forall i: nat :: IsDirectory(fs1, i) && i != ROOT_INODE && i != n ==> Listing(fs2, i) == Listing(fs1, i)
    ensures forall i: nat :: Live(fs2, i) <==> Live(fs, i)
    ensures forall i: nat :: IsDirectory(fs, i) ==> IsDirectory(fs2, i) && Listing(fs2, i) == Listing(fs, i)
  {
    hide Listing;
    forall i: nat | IsDirectory(fs, i)
      ensures IsDirectory(fs2, i) && Listing(fs2, i) == Listing(fs, i)
    {
      assert !DirBit(0);
      assert i != ROOT_INODE ==> IsDirectory(fs1, i);
    }
  }

  lemma {:induction false} NewNameHasNoSlash(path: seq<byte>)
    ensures SLASH !in NewName(path) && SkipSlashes(NewName(path)) == NewName(path)
  {
    assert NewName(path) != [] ==> NewName(path)[0] in NewName(path);
  }

  lemma {:induction false} MkdirInRoot(fs: Fs, path: seq<byte>)
    requires Inv(fs) && MkdirOk(fs, [SLASH], path) && MkdirMade(fs).Some?
    ensures CanEnter(MkdirMade(fs).value.1, [SLASH], NewName(path))
    ensures var (ok, fs1) := Mkdir(fs, [SLASH], path);
            var n, b := AllocInode(fs).0, ClearBlock(fs.used, FIRST_DATA);
            && ok && fs1.used == fs.used + {b} && b !in fs.used && fs1.free == fs.free - 1
            && FIRST_DATA <= b < TOTAL_BLOCKS
            && fs1.inodes == fs.inodes[n := Inode(NEW_MODE + DIR_MODE, BLOCK_SIZE, b)]
  {
    hide Chain, Entries, Appended, MinSize, MinRec, Enterable, PathWords, DotRecords, Splice;
    MkdirKeeps(fs, [SLASH], path);
    var (n, fs1) := MkdirMade(fs).value;
    assert CwdInode(fs1, [SLASH]) == Some(ROOT_INODE);
    MkdirMadeKeeps(fs);
  }

  // ---- when calls succeed ----

  /** alloc_inode fails exactly when no inode is free. */
  lemma {:induction false} AllocInodeFails(fs: Fs)
    requires Shape(fs)
    ensures AllocInode(fs).0 == 0 <==> forall i :: 1 <= i < MAX_INODES ==> fs.inodes[i].mode != 0
  {
    assert FreeInode(fs.inodes, 1) >= 1;
  }

  /** alloc_block fails exactly when no data block is clear. */
  lemma {:induction false} AllocBlockFails(fs: Fs)
    requires Shape(fs)
    ensures AllocBlock(fs).0 == 0 <==> forall n: nat :: FIRST_DATA <= n < TOTAL_BLOCKS ==> n in fs.used
  {
  }

  /** All that happened is that a free inode was taken and reset. */
  ghost predicate TakenInode(fs: Fs, n: nat, fs': Fs)
  {
    1 <= n < |fs.inodes| && fs.inodes[n].mode == 0 && fs' == fs.(inodes := fs.inodes[n := Inode(NEW_MODE, 0, 0)])
  }

  /** create succeeds exactly when an inode is free and the current directory resolves to an inode with a block. */
  lemma {:induction false} CreateSucceeds(fs: Fs, cwd: seq<byte>, path: seq<byte>)
    requires Inv(fs) && CreateOk(fs, cwd, path)
    ensures AllocInode(fs).0 != 0 ==> CanEnter(AllocInode(fs).1, cwd, NewName(path))
    ensures var d := CwdInode(fs, cwd);
            Create(fs, cwd, path).0.Some? <==>
            (exists i :: 1 <= i < MAX_INODES && fs.inodes[i].mode == 0) && d.Some? && fs.inodes[d.value].block != 0
    ensures var (h, fs') := Create(fs, cwd, path);
            h == None ==> fs' == fs || (exists n :: TakenInode(fs, n, fs'))
  {
    hide Chain, Entries, CanEnter, Walk, CwdWords, MinSize;
    AllocInodeFails(fs);
    CreateKeeps(fs, cwd, path);
    assert AllocInode(fs).0 != 0 ==> TakenInode(fs, AllocInode(fs).0, AllocInode(fs).1);
    if AllocInode(fs).0 != 0 {
      AllocInodeExtends(fs);
      CanEnterStill(fs, AllocInode(fs).1, cwd, NewName(path));
    }
  }

  /** mkdir needs a clear block besides. */
  lemma {:induction false} MkdirSucceeds(fs: Fs, cwd: seq<byte>, path: seq<byte>)
    requires Inv(fs) && (MkdirMade(fs).Some? ==> CanEnter(fs, cwd, NewName(path)))
    ensures var m := MkdirMade(fs); m.Some? ==> CanEnter(m.value.1, cwd, NewName(path))
    ensures var d := CwdInode(fs, cwd);
            Mkdir(fs, cwd, path).0 <==>
            && (exists i :: 1 <= i < MAX_INODES && fs.inodes[i].mode == 0)
            && (exists n: nat :: FIRST_DATA <= n < TOTAL_BLOCKS && n !in fs.used)
            && d.Some? && fs.inodes[d.value].block != 0
    ensures AllocInode(fs).0 == 0 ==> Mkdir(fs, cwd, path).1 == fs
    ensures AllocInode(fs).0 != 0 && MkdirMade(fs) == None ==> exists n :: TakenInode(fs, n, Mkdir(fs, cwd, path).1)
    ensures MkdirMade(fs).Some? && !Mkdir(fs, cwd, path).0 ==> Mkdir(fs, cwd, path).1 == MkdirMade(fs).value.1
  {
    hide Chain, Entries, CanEnter, Walk, CwdWords, MinSize, MakeDir;
    AllocInodeFails(fs);
    assert AllocInode(fs).0 != 0 ==> TakenInode(fs, AllocInode(fs).0, AllocInode(fs).1);
    AllocBlockFails(AllocInode(fs).1);
    if MkdirMade(fs).Some? {
      MadeListings(fs);
      CanEnterStill(fs, MkdirMade(fs).value.1, cwd, NewName(path));
    }
  }

  /** unlink succeeds exactly when the root lists the name, and changes nothing when it fails. */
  lemma {:induction false} UnlinkSucceeds(fs: Fs, path: seq<byte>)
    requires Inv(fs)
    ensures Chain(fs.blocks[ROOT_BLOCK], 0)
    ensures Unlink(fs, path).0 <==> exists e :: e in Listing(fs, ROOT_INODE) && e.name == SkipSlashes(path)
    ensures !Unlink(fs, path).0 ==> Unlink(fs, path).1 == fs
  {
    hide Chain, Entries, Deleted, FindAt, IndexOf, Release;
    assert IsDirectory(fs, ROOT_INODE);
    var es, name := Listing(fs, ROOT_INODE), SkipSlashes(path);
    var k := IndexOf(es, name);
    assert k < |es| ==> es[k] in es;
  }

  // ---- reading back what was written ----

  function Sum(counts: seq<nat>): nat
  {
    if counts == [] then 0 else counts[0] + Sum(counts[1..])
  }

  predicate Readable(fs: Fs, i: nat)
  {
    && Shape(fs) && i < MAX_INODES
    && (fs.inodes[i].size == 0 || (FIRST_DATA <= fs.inodes[i].block < TOTAL_BLOCKS && fs.inodes[i].size <= BLOCK_SIZE))
  }

  /** What successive abyssfs_read calls on one handle deliver, put together. */
  function ReadChunks(fs: Fs, i: nat, pos: nat, counts: seq<nat>): seq<byte>
    requires Readable(fs, i)
    decreases |counts|
  {
    if counts == [] then [] else
      var bytes := Read(fs, i, pos, counts[0]);
      bytes + ReadChunks(fs, i, pos + |bytes|, counts[1..])
  }

  lemma {:induction false} ReadSlice(fs: Fs, i: nat, pos: nat, count: nat, data: seq<byte>)
    requires Readable(fs, i) && pos <= |data| && fs.inodes[i].size == |data|
    requires |data| > 0 ==> data == fs.blocks[fs.inodes[i].block][..|data|]
    ensures Read(fs, i, pos, count) == data[pos..Min(pos + count, |data|)]
  {
    if pos < |data| {
      var block, mid := fs.blocks[fs.inodes[i].block], Min(pos + count, |data|);
      SliceOfTake(block, |data|, pos, mid);
    }
  }

  lemma {:induction false} ChunksCover(fs: Fs, i: nat, pos: nat, counts: seq<nat>, data: seq<byte>)
    requires Readable(fs, i) && pos <= |data| && fs.inodes[i].size == |data|
    requires |data| > 0 ==> data == fs.blocks[fs.inodes[i].block][..|data|]
    ensures ReadChunks(fs, i, pos, counts) == data[pos..Min(pos + Sum(counts), |data|)]
    decreases |counts|
  {
    hide Read, Readable;
    if counts == [] {
      assert data[pos..pos] == [];
    } else {
      var mid, end := Min(pos + counts[0], |data|), Min(pos + Sum(counts), |data|);
      ReadSlice(fs, i, pos, counts[0], data);
      ChunksCover(fs, i, mid, counts[1..], data);
      assert Min(mid + Sum(counts[1..]), |data|) == end;
      Concatenate(data, pos, mid, end);
    }
  }

  lemma {:induction false} Concatenate(s: seq<byte>, a: nat, b: nat, c: nat)
    requires a <= b <= c <= |s|
    ensures s[a..b] + s[b..c] == s[a..c]
  {
  }

  /** The first write to a file without a block. */
  lemma {:induction false} FirstWrite(fs: Fs, i: nat, data: seq<byte>)
    requires Shape(fs) && i < MAX_INODES && fs.inodes[i] == Inode(NEW_MODE, 0, 0) && |data| <= BLOCK_SIZE
    ensures var b := ClearBlock(fs.used, FIRST_DATA);
            var (written, fs') := Write(fs, i, data);
            if b == TOTAL_BLOCKS then written == 0 && fs' == fs else
              && written == |data|
              && fs'.inodes == fs.inodes[i := Inode(NEW_MODE, |data|, b)]
              && fs'.blocks == fs.blocks[b := fs'.blocks[b]] && |fs'.blocks[b]| == BLOCK_SIZE
              && fs'.blocks[b][..|data|] == data && fs'.blocks[b][|data|..] == fs.blocks[b][|data|..]
  {
    hide Splice;
    if ClearBlock(fs.used, FIRST_DATA) < TOTAL_BLOCKS {
      assert data[..|data|] == data;
    }
  }

  /** A later write goes to the start of the block as well: it overwrites the front, and its count is added to the
      size. */
  lemma {:induction false} WriteAgain(fs: Fs, i: nat, data: seq<byte>)
    requires Shape(fs) && i < MAX_INODES && FIRST_DATA <= fs.inodes[i].block < TOTAL_BLOCKS
    ensures var b, n := fs.inodes[i].block, Min(|data|, BLOCK_SIZE);
            var (written, fs') := Write(fs, i, data);
            && written == n
            && fs'.inodes == fs.inodes[i := fs.inodes[i].(size := (fs.inodes[i].size + n) % WORD)]
            && fs'.used == fs.used && fs'.free == fs.free
            && fs'.blocks == fs.blocks[b := fs'.blocks[b]] && |fs'.blocks[b]| == BLOCK_SIZE
            && fs'.blocks[b][..n] == data[..n] && fs'.blocks[b][n..] == fs.blocks[b][n..]
  {
    hide Splice;
    SplicePieces(fs.blocks[fs.inodes[i].block], 0, data[..Min(|data|, BLOCK_SIZE)]);
  }

  /** One write to a freshly created file, then reads of any sizes: exactly the bytes written come back, and
      no other inode or data block has changed. */
  lemma {:induction false} ReadBack(fs: Fs, i: nat, data: seq<byte>, counts: seq<nat>)
    requires Shape(fs) && i < MAX_INODES && fs.inodes[i] == Inode(NEW_MODE, 0, 0) && |data| <= BLOCK_SIZE
    ensures var b := ClearBlock(fs.used, FIRST_DATA);
            var (written, fs') := Write(fs, i, data);
            && Readable(fs', i)
            && (b == TOTAL_BLOCKS ==> written == 0 && fs' == fs)
            && (b < TOTAL_BLOCKS ==>
                  && written == |data|
                  && ReadChunks(fs', i, 0, counts) == data[..Min(Sum(counts), |data|)]
                  && (forall j :: 0 <= j < MAX_INODES && j != i ==> fs'.inodes[j] == fs.inodes[j])
                  && (forall n :: 0 <= n < TOTAL_BLOCKS && n != b ==> fs'.blocks[n] == fs.blocks[n])
                  && fs'.blocks[b][|data|..] == fs.blocks[b][|data|..])
  {
    hide Write, ReadChunks;
    FirstWrite(fs, i, data);
    if ClearBlock(fs.used, FIRST_DATA) < TOTAL_BLOCKS {
      var fs' := Write(fs, i, data).1;
      ChunksCover(fs', i, 0, counts, data);
      assert data[0..Min(Sum(counts), |data|)] == data[..Min(Sum(counts), |data|)];
    }
  }

  /** ReadBack for the handle abyssfs_create returns. */
  lemma {:induction false} CreatedFileIsFresh(fs: Fs, cwd: seq<byte>, path: seq<byte>)
    requires Inv(fs) && CreateOk(fs, cwd, path)
    ensures AllocInode(fs).0 != 0 ==> CanEnter(AllocInode(fs).1, cwd, NewName(path))
    ensures var (h, fs1) := Create(fs, cwd, path);
            h.Some? ==> h.value < MAX_INODES && fs1.inodes[h.value] == Inode(NEW_MODE, 0, 0) && WriteOk(fs1, h.value)
  {
    hide Chain, Entries, CanEnter, Create, Walk, MinSize;
    CreateKeeps(fs, cwd, path);
    assert !DirBit(NEW_MODE);
  }

  // ---- the byte mkdir does not clear ----

  /** What mkdir has done when it calls create_file is not seen through any directory that was there. */
  lemma {:induction false} MadeListings(fs: Fs)
    requires Inv(fs) && MkdirMade(fs).Some?
    ensures var (n, made) := MkdirMade(fs).value;
            var b := ClearBlock(fs.used, FIRST_DATA);
            && n == AllocInode(fs).0 && SameListings(fs, made)
            && FIRST_DATA <= b < TOTAL_BLOCKS && made.inodes[n].block == b
            && (forall i: nat :: IsDirectory(fs, i) ==> i != n && IsDirectory(made, i) && made.inodes[i].block != b)
  {
    hide Chain, Entries, DotRecords, Splice;
    var (n, made) := MkdirMade(fs).value;
    var b := ClearBlock(fs.used, FIRST_DATA);
    FreshInodeKeeps(fs);
    forall i: nat | IsDirectory(fs, i)
      ensures i != n && fs.inodes[i].block != b
    {
      assert Owns(fs, i, fs.inodes[i].block);
    }
  }

  /** The listing of the new directory when create_file is called depends on one byte of the block taken. */
  lemma {:induction false} MadeDots(fs: Fs)
    requires Inv(fs) && MkdirMade(fs).Some?
    ensures var (n, made) := MkdirMade(fs).value;
            Listing(made, n) == Dots(n) <==> fs.blocks[ClearBlock(fs.used, FIRST_DATA)][261] == 0
  {
    hide Chain, Entries, DotRecords, Splice;
    var (n, made) := MkdirMade(fs).value;
    var b := ClearBlock(fs.used, FIRST_DATA);
    SplicePieces(fs.blocks[b], 0, DotRecords(n));
    var c := made.blocks[b];
    assert c[..17] == c[0..17] == DotRecords(n);
    assert c[261] == c[17..][244] == fs.blocks[b][17..][244] == fs.blocks[b][261];
    FreshDirectory(c, n);
  }

  /** The directory mkdir leaves lists "." and ".." exactly when byte 261 of the block it took was zero. */
  lemma {:induction false} MkdirDots(fs: Fs, cwd: seq<byte>, path: seq<byte>)
    requires Inv(fs) && MkdirMade(fs).Some? && CanEnter(fs, cwd, NewName(path))
    ensures CanEnter(MkdirMade(fs).value.1, cwd, NewName(path))
    ensures var n := AllocInode(fs).0;
            Listing(Mkdir(fs, cwd, path).1, n) == Dots(n) <==> fs.blocks[ClearBlock(fs.used, FIRST_DATA)][261] == 0
  {
    hide Chain, Entries, Walk, DirsOnly, CwdWords, Appended, MakeDir;
    MadeListings(fs);
    MadeDots(fs);
    var (n, made) := MkdirMade(fs).value;
    CanEnterStill(fs, made, cwd, NewName(path));
    var d := CwdInode(made, cwd);
    if d.Some? && made.inodes[d.value].block != 0 {
      assert IsDirectory(fs, d.value);
    }
  }

  /** A file of at least 262 bytes, written once and unlinked, leaves a block behind that the next mkdir takes
      uncleared: the new directory lists "." and ".." exactly when byte 261 of the file was zero. */
  lemma {:induction false} StaleBlock(fs: Fs, i: nat, data: seq<byte>, path: seq<byte>, cwd: seq<byte>, dir: seq<byte>)
    requires Inv(fs) && UnlinkOk(path) && ClearBlock(fs.used, FIRST_DATA) < TOTAL_BLOCKS
    requires i < MAX_INODES && fs.inodes[i] == Inode(NEW_MODE, 0, 0) && 262 <= |data| <= BLOCK_SIZE
    requires var es := Listing(fs, ROOT_INODE);
             IndexOf(es, SkipSlashes(path)) < |es| && es[IndexOf(es, SkipSlashes(path))].inode == i
    ensures var fs1 := Write(fs, i, data).1;
            Chain(fs1.blocks[ROOT_BLOCK], 0) &&
            var fs2 := Unlink(fs1, path).1;
            && Inv(fs2) && MkdirMade(fs2).Some?
            && (CanEnter(fs2, cwd, NewName(dir)) ==>
                  && CanEnter(MkdirMade(fs2).value.1, cwd, NewName(dir))
                  && var n := AllocInode(fs2).0;
                     Listing(Mkdir(fs2, cwd, dir).1, n) == Dots(n) <==> data[261] == 0)
  {
    hide Chain, Entries, Deleted, FindAt, IndexOf, Without, DotRecords, Splice, CanEnter, Mkdir, MakeDir;
    var b := ClearBlock(fs.used, FIRST_DATA);
    var fs1 := Write(fs, i, data).1;
    assert !DirBit(NEW_MODE) && IsDirectory(fs, ROOT_INODE);
    WriteKeeps(fs, i, data);
    FirstWrite(fs, i, data);
    assert b != ROOT_BLOCK by {
      assert Owns(fs, ROOT_INODE, ROOT_BLOCK);
    }
    UnlinkKeeps(fs1, path);
    UnlinkExact(fs1, path);
    var fs2 := Unlink(fs1, path).1;
    assert fs2.used == fs.used;
    assert fs2.blocks[b] == fs1.blocks[b] && fs1.blocks[b][261] == fs1.blocks[b][..|data|][261];
    assert i > ROOT_INODE && fs2.inodes[i].mode == 0;
    assert FreeInode(fs2.inodes, 1) <= i;
    if CanEnter(fs2, cwd, NewName(dir)) {
      MkdirDots(fs2, cwd, dir);
    }
  }

  // ---- runs ----

  datatype Op =
    | OpCreate(cwd: seq<byte>, path: seq<byte>)
    | OpMkdir(cwd: seq<byte>, path: seq<byte>)
    | OpWrite(inode: nat, data: seq<byte>)
    | OpUnlink(path: seq<byte>)

  predicate Allowed(fs: Fs, op: Op)
  {
    Shape(fs) &&
    match op
    case OpCreate(cwd, path) => CreateOk(fs, cwd, path)
    case OpMkdir(cwd, path) => MkdirOk(fs, cwd, path)
    case OpWrite(i, _) => WriteOk(fs, i)
    case OpUnlink(path) => UnlinkOk(path)
  }

  ghost function Apply(fs: Fs, op: Op): (fs': Fs)
    requires Inv(fs) && Allowed(fs, op)
    ensures Inv(fs')
  {
    match op
    case OpCreate(cwd, path) => CreateKeeps(fs, cwd, path); Create(fs, cwd, path).1
    case OpMkdir(cwd, path) => MkdirKeeps(fs, cwd, path); Mkdir(fs, cwd, path).1
    case OpWrite(i, data) => WriteKeeps(fs, i, data); Write(fs, i, data).1
    case OpUnlink(path) => UnlinkKeeps(fs, path); Unlink(fs, path).1
  }

  /** A state some sequence of allowed operations leads to from `fs`. */
  ghost predicate Reaches(fs: Fs, ops: seq<Op>, fs': Fs)
    requires Inv(fs)
    decreases |ops|
  {
    if ops == [] then fs' == fs
    else Allowed(fs, ops[0]) && Reaches(Apply(fs, ops[0]), ops[1..], fs')
  }

  lemma {:induction false} InitOwned()
    ensures Owned(Init()) && Counted(Init()) && Rooted(Init())
  {
    hide Splice, DotRecords, Zeros;
    var fs := Init();
    assert Owns(fs, ROOT_INODE, ROOT_BLOCK);
    assert forall i: nat, n: nat :: Owns(fs, i, n) ==> i == ROOT_INODE && n == ROOT_BLOCK;
    assert ClearBlocks(fs) == Range(ROOT_BLOCK + 1, TOTAL_BLOCKS);
  }

  lemma {:induction false} InitKeeps()
    ensures Inv(Init()) && Listing(Init(), ROOT_INODE) == Dots(ROOT_INODE)
  {
    hide Chain, Entries, DotRecords, Owned, Counted;
    var fs := Init();
    var b := fs.blocks[ROOT_BLOCK];
    assert b[..17] == DotRecords(ROOT_INODE);
    FreshDirectory(b, ROOT_INODE);
    assert Dots(ROOT_INODE)[..2] == Dots(ROOT_INODE);
    assert forall i: nat :: IsDirectory(fs, i) ==> i == ROOT_INODE;
    InitOwned();
  }

  ghost function Range(a: nat, b: nat): (r: set<nat>)
    requires a <= b
    ensures |r| == b - a && forall k: nat :: k in r <==> a <= k < b
  {
    if a == b then {} else Range(a, b - 1) + {b - 1}
  }

  /** In every reachable state a data block is marked exactly when one and only one live inode has it, and
      the free count is the number of clear blocks plus one. */
  lemma {:induction false} RunKeepsOwnership(fs: Fs, ops: seq<Op>, fs': Fs)
    requires Inv(fs) && Reaches(fs, ops, fs')
    ensures Inv(fs')
    ensures forall n :: FIRST_DATA <= n < TOTAL_BLOCKS ==> (n in fs'.used <==> |Owners(fs', n)| == 1)
    ensures fs'.free == |ClearBlocks(fs')| + 1
    decreases |ops|
  {
    hide Apply, Allowed;
    if ops == [] {
      forall n | FIRST_DATA <= n < TOTAL_BLOCKS
        ensures n in fs'.used <==> |Owners(fs', n)| == 1
      {
        MarkedIffOneOwner(fs', n);
      }
    } else {
      RunKeepsOwnership(Apply(fs, ops[0]), ops[1..], fs');
    }
  }

  // ---- a run that leaves a stale block ----

  const FILE_A: seq<byte> := [97]

  lemma {:induction false} DotsOnly(name: seq<byte>)
    requires name != [DOT] && name != [DOT, DOT]
    ensures IndexOf(Dots(ROOT_INODE), name) == 2 && MinSize(Dots(ROOT_INODE)) == 20
  {
    var es := Dots(ROOT_INODE);
    assert es[1..] == [es[1]] && es[1..][1..] == [];
    assert MinSize(es[1..]) == 12;
  }

  /** A root that lists only the dots takes "a". */
  lemma {:induction false} RootTakesA(fs: Fs)
    requires Inv(fs) && Listing(fs, ROOT_INODE) == Dots(ROOT_INODE)
    ensures Enterable(fs, [SLASH], FILE_A) && NewName(FILE_A) == FILE_A && FreshName(fs, [SLASH], FILE_A)
    ensures CwdInode(fs, [SLASH]) == Some(ROOT_INODE) && CanEnter(fs, [SLASH], NewName(FILE_A))
  {
    hide Chain, Entries, IndexOf, MinSize;
    assert IsDirectory(fs, ROOT_INODE);
    NonEmptyListing(fs, fs, ROOT_INODE);
    DotsOnly(FILE_A);
    assert SkipSlashes(FILE_A) == FILE_A;
  }

  lemma {:induction false} CreateA()
    ensures Inv(Init()) && CreateOk(Init(), [SLASH], FILE_A)
    ensures CanEnter(AllocInode(Init()).1, [SLASH], NewName(FILE_A))
    ensures var (h, fs) := Create(Init(), [SLASH], FILE_A);
            && h == Some(2) && Inv(fs) && fs.inodes[2] == Inode(NEW_MODE, 0, 0) && WriteOk(fs, 2)
            && Listing(fs, ROOT_INODE) == Dots(ROOT_INODE) + [Entry(2, FILE_A)]
            && ClearBlock(fs.used, FIRST_DATA) < TOTAL_BLOCKS
  {
    hide Chain, Entries, DotRecords, Splice, Inv, Enterable, FreshName, Listing;
    InitKeeps();
    RootTakesA(Init());
    assert AllocInode(Init()).0 == 2 by {
      assert Init().inodes[2].mode == 0 && Init().inodes[1].mode != 0;
    }
    CreateKeeps(Init(), [SLASH], FILE_A);
    CreatedFileIsFresh(Init(), [SLASH], FILE_A);
    assert 10 !in Init().used;
  }

  /** From the state abyssfs_init builds, the run that creates "a", writes `data` and unlinks "a" is allowed; mkdir
      of "a" then makes a directory that lists "." and ".." exactly when byte 261 of `data` is zero. */
  lemma {:induction false} StaleRun(data: seq<byte>)
    requires 262 <= |data| <= BLOCK_SIZE
    ensures Inv(Init())
    ensures exists fs :: Reaches(Init(), [OpCreate([SLASH], FILE_A), OpWrite(2, data), OpUnlink(FILE_A)], fs) &&
              Inv(fs) && MkdirMade(fs).Some? && CanEnter(MkdirMade(fs).value.1, [SLASH], NewName(FILE_A)) &&
              var n := AllocInode(fs).0;
              Listing(Mkdir(fs, [SLASH], FILE_A).1, n) == Dots(n) <==> data[261] == 0
  {
    hide Chain, Entries, Inv, Create, Write, Unlink, Mkdir, CanEnter, Enterable, IndexOf, Without, WriteOk, Reaches, Init;
    CreateA();
    var fs1 := Create(Init(), [SLASH], FILE_A).1;
    FileAStale(fs1, data);
    var fs2 := Write(fs1, 2, data).1;
    var fs3 := Unlink(fs2, FILE_A).1;
    ThreeSteps(Init(), OpCreate([SLASH], FILE_A), fs1, OpWrite(2, data), fs2, OpUnlink(FILE_A), fs3);
  }

  lemma {:induction false} ThreeSteps(a: Fs, x: Op, b: Fs, y: Op, c: Fs, z: Op, d: Fs)
    requires Inv(a) && Allowed(a, x) && b == Apply(a, x) && Allowed(b, y) && c == Apply(b, y)
    requires Allowed(c, z) && d == Apply(c, z)
    ensures Reaches(a, [x, y, z], d)
  {
    hide Inv, Allowed, Apply;
    assert [x, y, z][1..] == [y, z] && [y, z][1..] == [z] && [z][1..] == [];
    assert Reaches(d, [], d);
    assert Reaches(c, [z], d);
    assert Reaches(b, [y, z], d);
  }

  lemma {:induction false} FileAStale(fs: Fs, data: seq<byte>)
    requires Inv(fs) && 262 <= |data| <= BLOCK_SIZE && ClearBlock(fs.used, FIRST_DATA) < TOTAL_BLOCKS
    requires fs.inodes[2] == Inode(NEW_MODE, 0, 0) && Listing(fs, ROOT_INODE) == Dots(ROOT_INODE) + [Entry(2, FILE_A)]
    ensures var fs1 := Write(fs, 2, data).1;
            && Inv(fs1) && UnlinkOk(FILE_A) && Chain(fs1.blocks[ROOT_BLOCK], 0)
            && var fs2 := Unlink(fs1, FILE_A).1;
               && Inv(fs2) && MkdirMade(fs2).Some? && CanEnter(MkdirMade(fs2).value.1, [SLASH], NewName(FILE_A))
               && var n := AllocInode(fs2).0;
                  Listing(Mkdir(fs2, [SLASH], FILE_A).1, n) == Dots(n) <==> data[261] == 0
  {
    hide Chain, Entries, Write, Unlink, Mkdir, CanEnter, Enterable, IndexOf, Without, Listing, FreshName, Inv, UnlinkOk;
    RootIsDirectory(fs);
    ListsA(fs);
    StaleBlock(fs, 2, data, FILE_A, [SLASH], FILE_A);
    WriteKeeps(fs, 2, data);
    var fs1 := Write(fs, 2, data).1;
    AfterUnlinkA(fs1);
    RootTakesA(Unlink(fs1, FILE_A).1);
  }

  lemma {:induction false} RootIsDirectory(fs: Fs)
    requires Inv(fs)
    ensures IsDirectory(fs, ROOT_INODE) && Searchable(fs, ROOT_INODE) && !DirBit(NEW_MODE)
  {
    assert IsDirectory(fs, ROOT_INODE);
  }

  lemma {:induction false} ListsA(fs: Fs)
    requires Shape(fs) && Listing(fs, ROOT_INODE) == Dots(ROOT_INODE) + [Entry(2, FILE_A)]
    ensures SkipSlashes(FILE_A) == FILE_A && IndexOf(Listing(fs, ROOT_INODE), FILE_A) == 2 && UnlinkOk(FILE_A)
    ensures Listing(fs, ROOT_INODE)[2] == Entry(2, FILE_A)
    ensures Without(Listing(fs, ROOT_INODE), FILE_A) == Dots(ROOT_INODE)
  {
    hide Listing, IndexOf, Without;
    DotsOnly(FILE_A);
    FreshNameFound(Dots(ROOT_INODE), Entry(2, FILE_A));
    WithoutLast(Dots(ROOT_INODE), Entry(2, FILE_A));
  }

  lemma {:induction false} AfterUnlinkA(fs: Fs)
    requires Inv(fs) && Listing(fs, ROOT_INODE) == Dots(ROOT_INODE) + [Entry(2, FILE_A)]
    ensures UnlinkOk(FILE_A) && Chain(fs.blocks[ROOT_BLOCK], 0)
    ensures Inv(Unlink(fs, FILE_A).1) && Listing(Unlink(fs, FILE_A).1, ROOT_INODE) == Dots(ROOT_INODE)
  {
    hide Chain, Entries, Unlink, IndexOf, Without, Listing, Inv, UnlinkOk;
    RootIsDirectory(fs);
    ListsA(fs);
    UnlinkKeepsA(fs);
    UnlinkExact(fs, FILE_A);
  }

  lemma {:induction false} UnlinkKeepsA(fs: Fs)
    requires Inv(fs)
    ensures Chain(fs.blocks[ROOT_BLOCK], 0) && Inv(Unlink(fs, FILE_A).1)
  {
    hide Unlink, Inv;
    assert SkipSlashes(FILE_A) == FILE_A;
    UnlinkKeeps(fs, FILE_A);
  }
}
