/** Path strings of AbyssFS: how they name components, and that what mkdir and create make is found again under its
    path. */
module AbyssPaths {
  import opened Bytes
  import opened DirRecords
  import opened AbyssSpec
  import opened AbyssInvariant
  import opened AbyssRuns
  import opened ShellPaths
  import CStrings
  import Tokens

  // ---- slashes, last components ----

  /** Exactly the leading slashes go. */
  lemma {:induction false} SkipSlashesExact(path: seq<byte>)
    ensures var r := SkipSlashes(path);
            && |r| <= |path| && path[|path| - |r|..] == r && (r != [] ==> r[0] != SLASH)
            && forall k :: 0 <= k < |path| - |r| ==> path[k] == SLASH
  {
    if path != [] && path[0] == SLASH {
      SkipSlashesExact(path[1..]);
    }
  }

  /** The new name is what follows the last slash. */
  lemma {:induction false} NewNameExact(front: seq<byte>, name: seq<byte>)
    requires SLASH !in name
    ensures Basename(name) == name && Basename(front + [SLASH] + name) == name
  {
    LastSlash(front, name);
  }

  // ---- the components of a path string ----

  lemma {:induction false} LeadingSlashes(path: seq<byte>)
    ensures Tokens.Split(SkipSlashes(path), SLASHES) == Tokens.Split(path, SLASHES)
  {
    if path != [] && path[0] == SLASH {
      LeadingSlashes(path[1..]);
      assert path == [SLASH] + path[1..];
      Tokens.SplitLeading(SLASH, path[1..], SLASHES);
    }
  }

  /** get_inode_by_path looks up all components of a path of up to 255 characters behind its leading slashes, and those
      of the first 255 characters of a longer one. */
  lemma {:induction false} PathWordsExact(path: seq<byte>)
    ensures |SkipSlashes(path)| <= 255 ==> PathWords(path) == Tokens.Split(path, SLASHES)
    ensures |SkipSlashes(path)| > 255 ==> PathWords(path) == Tokens.Split(SkipSlashes(path)[..255], SLASHES)
  {
    hide Tokens.SplitFrom;
    LeadingSlashes(path);
    assert |SkipSlashes(path)| <= 255 ==> Take(SkipSlashes(path), 255) == SkipSlashes(path);
  }

  /** A path that spells a stack of names, in a buffer of 256 characters, is looked up name by name, as an argument and
      as the current directory. */
  lemma {:induction false} RenderedWords(names: seq<seq<byte>>)
    requires AllNames(names) && |Render(names)| <= 256
    ensures PathWords(Render(names)) == names && CwdWords(Render(names)) == names && CwdWords([]) == []
  {
    hide Tokens.SplitFrom, PathWords;
    var path := Render(names);
    RenderStart(names);
    SplitRender(names);
    if names != [] {
      JoinNotRoot(names);
    }
    SkipSlashesExact(path);
    SkipSlashesExact(path[1..]);
    PathWordsExact(path);
    PathWordsExact(path[1..]);
    assert path == [SLASH] + path[1..];
    Tokens.SplitLeading(SLASH, path[1..], SLASHES);
  }

  lemma {:induction false} RenderStart(names: seq<seq<byte>>)
    ensures Render(names) != [] && Render(names)[0] == SLASH
  {
    if names != [] {
      JoinStart(names);
    }
  }

  lemma {:induction false} JoinStart(names: seq<seq<byte>>)
    requires names != []
    ensures Join(names) != [] && Join(names)[0] == SLASH
  {
    var front := names[..|names| - 1];
    if front != [] {
      JoinStart(front);
    }
  }

  /** The path of a name in the directory spelled by `names`. */
  function ChildPath(names: seq<seq<byte>>, name: seq<byte>): seq<byte>
  {
    (if names == [] then [] else Render(names)) + [SLASH] + name
  }

  lemma {:induction false} ChildWords(names: seq<seq<byte>>, name: seq<byte>)
    requires AllNames(names) && name != [] && SLASH !in name && |ChildPath(names, name)| <= 256
    ensures PathWords(ChildPath(names, name)) == names + [name]
  {
    hide Tokens.SplitFrom, PathWords;
    var front, path := if names == [] then [] else Render(names), ChildPath(names, name);
    RenderStart(names);
    SkipSlashesExact(path);
    PathWordsExact(path);
    assert path[0] == SLASH;
    Tokens.SplitJoined(front, SLASHES, name);
    Tokens.SplitOne(name, SLASHES);
    Tokens.SplitEmpty(SLASHES);
    SplitRender(names);
  }

  // ---- what was made is found under its path ----

  /** In every canonical current directory: after mkdir of a fresh name, get_inode_by_path of the path of the current
      directory, a slash and the name returns the new inode, and it lists "." and "..". */
  lemma {:induction false} MkdirFound(fs: Fs, names: seq<seq<byte>>, path: seq<byte>)
    requires Inv(fs) && AllNames(names) && MkdirOk(fs, Render(names), path) && DirsOnly(fs, ROOT_INODE, names)
    requires NewName(path) != [] && |ChildPath(names, NewName(path))| <= 256
    requires FreshName(fs, Render(names), NewName(path))
    ensures var m := MkdirMade(fs); m.Some? ==> CanEnter(m.value.1, Render(names), NewName(path))
    ensures var (ok, fs') := Mkdir(fs, Render(names), path);
            var n := AllocInode(fs).0;
            ok ==> Walk(fs', ROOT_INODE, PathWords(ChildPath(names, NewName(path)))) == Some(n)
                   && Listing(fs', n) == [Entry(n, [DOT]), Entry(ROOT_INODE, [DOT, DOT])]
  {
    hide Mkdir, CanEnter, Walk, DirsOnly, FreshName, PathWords, CwdWords, MkdirOk;
    NewNameHasNoSlash(path);
    RenderedWords(names);
    ChildWords(names, NewName(path));
    MkdirResolves(fs, Render(names), path);
  }

  /** After create of a fresh name, it returns the inode of the new handle. */
  lemma {:induction false} CreateFound(fs: Fs, names: seq<seq<byte>>, path: seq<byte>)
    requires Inv(fs) && AllNames(names) && CreateOk(fs, Render(names), path) && DirsOnly(fs, ROOT_INODE, names)
    requires NewName(path) != [] && |ChildPath(names, NewName(path))| <= 256
    requires FreshName(fs, Render(names), NewName(path))
    ensures AllocInode(fs).0 != 0 ==> CanEnter(AllocInode(fs).1, Render(names), NewName(path))
    ensures var (h, fs') := Create(fs, Render(names), path);
            h.Some? ==> Walk(fs', ROOT_INODE, PathWords(ChildPath(names, NewName(path)))) == h
  {
    hide Create, CanEnter, Walk, DirsOnly, FreshName, PathWords, CwdWords, CreateOk;
    NewNameHasNoSlash(path);
    RenderedWords(names);
    ChildWords(names, NewName(path));
    CreateResolves(fs, Render(names), path);
  }

  /** Looking up a path goes component by component: behind the directory found so far, the next name decides. */
  lemma {:induction false} LookupStep(fs: Fs, words: seq<seq<byte>>, w: seq<byte>, d: nat)
    requires Shape(fs) && Walk(fs, ROOT_INODE, words) == Some(d) && Searchable(fs, d)
    ensures var es := Listing(fs, d);
            && ((forall e :: e in es ==> e.name != w) ==> Walk(fs, ROOT_INODE, words + [w]) == None)
            && (forall k :: 0 <= k < |es| && es[k].name == w && es[k].inode < MAX_INODES
                            && (forall i :: 0 <= i < k ==> es[i].name != w) ==>
                  Walk(fs, ROOT_INODE, words + [w]) == Some(es[k].inode))
  {
    hide IndexOf, Searchable, Listing;
    WalkOne(fs, ROOT_INODE, words, w, d);
    var es := Listing(fs, d);
    var k := IndexOf(es, w);
    if k < |es| {
      assert es[k] in es;
      if es[k].inode < MAX_INODES {
        WalkHere(fs, d, w);
      }
    }
  }
}
