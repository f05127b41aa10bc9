/** ramfs.c on memory: every operation changes the decoded slot table as the function of the same name in
    RamSpec says. */
module RamFs {
  import opened Bytes
  import opened RamSpec
  import CStrings

  /** is_file_in_dir */
  method IsFileInDir(filePath: CString, dirPath: CString) returns (inside: bool)
    ensures inside <==> Base(Text(filePath), Text(dirPath)).Some?
  {
    hide TextLen, Take, CStrings.TextLess;
    var f, d := Text(filePath), Text(dirPath);
    var dirLen := CStrings.Strlen(dirPath);
    PrefixTaken(f, d);
    var r := CStrings.Strncmp(filePath, dirPath, dirLen);
    if r != 0 {
      return false;
    }
    BaseByLastSlash(f, d);
    StoredText(TMP, []);
    var t := CStrings.Strcmp(dirPath, TMP + [0] + []);
    if t == 0 {
      if filePath[dirLen] != SLASH {
        return false;
      }
      TextDrop(filePath, dirLen + 1);
      var slash := CStrings.Strrchr(filePath[dirLen + 1..], SLASH);
      return slash == None;
    }
    var last := CStrings.Strrchr(filePath, SLASH);
    if last == None {
      return false;
    }
    return last.value == dirLen;
  }

  /** get_basename: the index where the last component starts. */
  method GetBasename(path: CString) returns (at: nat)
    ensures at <= TextLen(path) && SLASH !in Text(path)[at..]
    ensures at > 0 ==> Text(path)[at - 1] == SLASH
    ensures forall d :: Base(Text(path), d).Some? ==> Base(Text(path), d) == Some(Text(path)[at..])
  {
    hide TextLen;
    var last := CStrings.Strrchr(path, SLASH);
    at := if last.Some? then last.value + 1 else 0;
    forall d | Base(Text(path), d).Some?
      ensures at == |d| + 1
    {
      BaseByLastSlash(Text(path), d);
    }
    assert at == 0 ==> Text(path)[at..] == Text(path);
  }

  // ---- the slot table in memory ----

  /** struct ramfs_file */
  class RamFile {
    const path: array<byte>
    const content: array<byte>
    var size: nat
    var used: bool

    /** Zeroed by ramfs_init. */
    constructor ()
      ensures fresh(path) && fresh(content) && path != content
      ensures Valid() && Value() == File([], Zeros(MAX_CONTENT), 0, false)
    {
      path := new byte[MAX_PATH](_ => 0);
      content := new byte[MAX_CONTENT](_ => 0);
      size, used := 0, false;
      new;
      assert path[0] == 0;
      assert path[..][..0] == [];
      TextLenIs(path[..], 0);
    }

    ghost predicate Valid()
      reads this, path, content
    {
      path.Length == MAX_PATH && content.Length == MAX_CONTENT && 0 in path[..] && size <= MAX_CONTENT
    }

    ghost function Value(): (f: File)
      requires Valid()
      reads this, path, content
      ensures Shape(f)
    {
      File(Text(path[..]), content[..], size, used)
    }
  }

  /** An open stream: the slot behind private_data, and f_pos. */
  class VfsFile {
    const slot: nat
    var pos: nat

    constructor (slot: nat)
      ensures this.slot == slot && pos == 0
    {
      this.slot, pos := slot, 0;
    }
  }

  ghost function Memory(files: seq<RamFile>): set<object>
  {
    (set f: RamFile | f in files :: f as object) + (set f: RamFile | f in files :: f.path as object)
    + (set f: RamFile | f in files :: f.content as object)
  }

  lemma {:induction false} MemoryGrows(fs: seq<RamFile>, f: RamFile)
    ensures Memory(fs + [f]) == Memory(fs) + {f as object, f.path as object, f.content as object}
  {
    assert forall g :: g in fs + [f] <==> g in fs || g == f;
  }

  /** No two slots share memory. */
  ghost predicate Separate(files: seq<RamFile>)
  {
    forall i, j :: 0 <= i < j < |files| ==>
      && files[i] != files[j] && files[i].path != files[j].path && files[i].content != files[j].content
      && files[i].path != files[j].content && files[i].content != files[j].path
  }

  lemma SeparateNone()
    ensures Separate([])
  {
  }

  lemma {:induction false} SeparateGrows(fs: seq<RamFile>, f: RamFile)
    requires Separate(fs) && {f as object, f.path as object, f.content as object} !! Memory(fs)
    ensures Separate(fs + [f])
  {
    forall i | 0 <= i < |fs|
      ensures fs[i] != f && fs[i].path != f.path && fs[i].content != f.content
      ensures fs[i].path != f.content && fs[i].content != f.path
    {
      assert fs[i] in fs;
    }
  }

  class Table {
    const files: seq<RamFile>

    ghost predicate Valid()
      reads Memory(files)
    {
      && |files| == MAX_FILES && Separate(files)
      && forall i :: 0 <= i < |files| ==> files[i].path != files[i].content && files[i].Valid()
    }

    ghost function View(): (fs: seq<File>)
      requires Valid()
      reads Memory(files)
      ensures Shaped(fs)
      ensures forall i :: 0 <= i < |fs| ==> fs[i] == files[i].Value()
    {
      seq(|files|, i requires 0 <= i < |files| && files[i].Valid() reads Memory(files) => files[i].Value())
    }

    /** ramfs_init */
    constructor ()
      ensures Valid() && fresh(Memory(files))
      ensures View() == seq(MAX_FILES, _ => File([], Zeros(MAX_CONTENT), 0, false))
    {
      hide Separate, Text;
      var fs: seq<RamFile> := [];
      SeparateNone();
      while |fs| < MAX_FILES
        invariant |fs| <= MAX_FILES && Separate(fs) && fresh(Memory(fs))
        invariant forall i :: 0 <= i < |fs| ==>
                    && fs[i].path != fs[i].content
                    && fs[i].Valid() && fs[i].Value() == File([], Zeros(MAX_CONTENT), 0, false)
      {
        var f := new RamFile();
        MemoryGrows(fs, f);
        SeparateGrows(fs, f);
        fs := fs + [f];
      }
      files := fs;
    }

    function Slot(k: nat): RamFile
      requires k < |files|
    {
      files[k]
    }

    // ---- one slot changes ----

    /** memcpy into the content of slot `k`, and its new size. */
    method SetContent(k: nat, pos: nat, src: seq<byte>, n: nat, size: nat)
      requires Valid() && k < |files| && n <= |src| && pos + n <= MAX_CONTENT && size <= MAX_CONTENT
      modifies Slot(k)`size, Slot(k).content
      ensures Valid()
      ensures var f := old(View())[k];
              View() == old(View())[k := f.(content := Splice(f.content, pos, src[..n]), size := size)]
    {
      CStrings.Memcpy(files[k].content, pos, src, n);
      files[k].size := size;
    }

    /** The slot's path is overwritten and the slot is put to use. */
    method SetPath(k: nat, path: CString)
      requires Valid() && k < |files| && |Text(path)| < MAX_PATH
      modifies Slot(k)`used, Slot(k).path
      ensures Valid()
      ensures View() == old(View())[k := old(View())[k].(path := Text(path), used := true)]
    {
      files[k].used := true;
      CStrings.Strcpy(files[k].path, 0, path);
    }

    method SetUnused(k: nat)
      requires Valid() && k < |files|
      modifies Slot(k)`used, Slot(k)`size
      ensures Valid()
      ensures View() == old(View())[k := old(View())[k].(used := false, size := 0)]
    {
      files[k].used, files[k].size := false, 0;
    }

    /** The slot is put to use with an empty file. */
    method Empty(k: nat, path: CString)
      requires Valid() && k < |files| && |Text(path)| < MAX_PATH
      modifies Slot(k), Slot(k).path, Slot(k).content
      ensures Valid()
      ensures View() == old(View())[k := Emptied(old(View())[k], Text(path))]
    {
      ghost var f := View()[k];
      assert Splice(f.content, 0, [0][..1]) == f.content[0 := 0];
      SetPath(k, path);
      SetContent(k, 0, [0], 1, 0);
    }

    // ---- searches ----

    method FindPath(path: CString) returns (i: nat)
      requires Valid()
      ensures i == Lookup(View(), Text(path))
    {
      hide TextLen, Lookup;
      i := 0;
      while i < MAX_FILES
        invariant i <= MAX_FILES
        invariant forall j :: 0 <= j < i ==> !(View()[j].used && View()[j].path == Text(path))
      {
        assert View()[i] == files[i].Value();
        if files[i].used {
          var r := CStrings.Strcmp(files[i].path[..], path);
          if r == 0 {
            return;
          }
        }
        i := i + 1;
      }
    }

    method FindUnused() returns (i: nat)
      requires Valid()
      ensures i == FirstFree(View())
    {
      hide FirstFree;
      i := 0;
      while i < MAX_FILES
        invariant i <= MAX_FILES
        invariant forall j :: 0 <= j < i ==> View()[j].used
      {
        if !files[i].used {
          return;
        }
        i := i + 1;
      }
    }

    // ---- operations ----

    /** ramfs_open */
    method Open(path: CString) returns (file: VfsFile?)
      requires Valid()
      ensures var i := Lookup(View(), Text(path));
              if i == |View()| then file == null else fresh(file) && file.slot == i && file.pos == 0
    {
      var i := FindPath(path);
      if i == MAX_FILES {
        return null;
      }
      file := new VfsFile(i);
    }

    /** ramfs_read */
    method Read(file: VfsFile, buf: array<byte>, count: nat) returns (n: nat)
      requires Valid() && file.slot < MAX_FILES && count <= buf.Length && buf !in Memory(files)
      modifies file`pos, buf
      ensures Valid() && View() == old(View())
      ensures var x := ReadOf(old(View())[file.slot], old(file.pos), count);
              n == |x| && buf[..] == Splice(old(buf[..]), 0, x) && file.pos == old(file.pos) + n
    {
      var rf := files[file.slot];
      if file.pos >= rf.size {
        return 0;
      }
      n := count;
      if file.pos + n > rf.size {
        n := rf.size - file.pos;
      }
      var from := rf.content[file.pos..];
      assert from[..n] == rf.content[file.pos..file.pos + n];
      CStrings.Memcpy(buf, 0, from, n);
      file.pos := file.pos + n;
    }

    /** ramfs_write */
    method Write(file: VfsFile, buf: seq<byte>, count: nat) returns (n: nat)
      requires Valid() && file.slot < MAX_FILES && file.pos <= MAX_CONTENT && count <= |buf|
      modifies file`pos, Slot(file.slot)`size, Slot(file.slot).content
      ensures Valid() && n == Room(old(file.pos), count) && file.pos == old(file.pos) + n
      ensures View() == old(View())[file.slot := WriteOf(old(View())[file.slot], old(file.pos), buf[..count])]
    {
      n := count;
      if file.pos + n > MAX_CONTENT {
        n := MAX_CONTENT - file.pos;
      }
      if n > 0 {
        var rf, at := files[file.slot], file.pos;
        file.pos := file.pos + n;
        assert buf[..count][..n] == buf[..n];
        SetContent(file.slot, at, buf, n, if file.pos > rf.size then file.pos else rf.size);
      }
    }

    /** ramfs_create */
    method Create(path: CString) returns (file: VfsFile?)
      requires Valid() && |FullPath(Text(path))| < MAX_PATH
      modifies Memory(files)
      ensures Valid()
      ensures var (i, fs) := RamSpec.Create(old(View()), Text(path));
              && View() == fs
              && (if i == None then file == null else fresh(file) && file.slot == i.value && file.pos == 0)
    {
      hide TextLen, FirstFree;
      var fullPath := BuildFullPath(path);
      var i := FindUnused();
      if i == MAX_FILES {
        return null;
      }
      assert Slot(i) in files;
      Empty(i, fullPath);
      file := new VfsFile(i);
    }

    /** ramfs_unlink; false for -1. */
    method Unlink(path: CString) returns (ok: bool)
      requires Valid()
      modifies Memory(files)
      ensures Valid() && (ok, View()) == RamSpec.Unlink(old(View()), Text(path))
    {
      hide TextLen, Lookup;
      var i := FindPath(path);
      if i == MAX_FILES {
        return false;
      }
      assert Slot(i) in files;
      SetUnused(i);
      return true;
    }

    /** The entry ramfs_read_dir makes for slot `i`. */
    method EntryOf(i: nat, path: CString) returns (e: Option<Dirent>)
      requires Valid() && i < MAX_FILES
      ensures Listed(View(), Text(path), i) == if e.None? then [] else [e.value]
    {
      hide TextLen, Base;
      e := None;
      if files[i].used {
        var inside := IsFileInDir(files[i].path[..], path);
        if inside {
          var at := GetBasename(files[i].path[..]);
          TextDrop(files[i].path[..], at);
          var n := CStrings.Strlen(files[i].path[at..]);
          assert files[i].path[..][at..] == files[i].path[at..];
          e := Some(Dirent(i + 2, files[i].path[at..at + n]));
        }
      }
    }

    /** ramfs_read_dir: fills `dirents` and returns the new count. */
    method ReadDir(path: CString, dirents: array<Dirent>, count: nat) returns (n: nat)
      requires Valid() && count <= dirents.Length && dirents !in Memory(files)
      modifies dirents
      ensures Valid() && View() == old(View())
      ensures n == |Take(Listing(View(), Text(path)), count)|
      ensures dirents[..n] == Take(Listing(View(), Text(path)), count)
      ensures dirents[n..] == old(dirents[n..])
    {
      n := 0;
      if n < count {
        dirents[n] := Dirent(1, [DOT]);
        n := n + 1;
      }
      if n < count {
        dirents[n] := Dirent(1, [DOT, DOT]);
        n := n + 1;
      }
      n := ListSlots(path, dirents, count, n);
    }

    /** The loop of ramfs_read_dir over the slots. */
    method ListSlots(path: CString, dirents: array<Dirent>, count: nat, start: nat) returns (n: nat)
      requires Valid() && start <= count <= dirents.Length && dirents !in Memory(files)
      requires dirents[..start] == Take(DOTS, count)
      modifies dirents
      ensures Valid() && View() == old(View()) && n <= dirents.Length
      ensures dirents[..n] == Take(Listing(View(), Text(path)), count)
      ensures dirents[n..] == old(dirents[n..])
    {
      hide Take, Listed, Text;
      n := start;
      var i := 0;
      ghost var fs, dir := View(), Text(path);
      assert DOTS + Children(fs, dir, 0, 0) == DOTS;
      while i < MAX_FILES && n < count
        invariant i <= MAX_FILES && n <= count && Valid() && View() == fs
        invariant dirents[..n] == Take(DOTS + Children(fs, dir, 0, i), count)
        invariant forall k :: n <= k < dirents.Length ==> dirents[k] == old(dirents[k])
      {
        var e := EntryOf(i, path);
        assert DOTS + Children(fs, dir, 0, i + 1) == DOTS + Children(fs, dir, 0, i) + Listed(fs, dir, i);
        TakeExtended(DOTS + Children(fs, dir, 0, i), Listed(fs, dir, i), count);
        if e.Some? {
          dirents[n] := e.value;
          n := n + 1;
        }
        i := i + 1;
      }
      if i < MAX_FILES {
        ghost var more := Children(fs, dir, i, MAX_FILES);
        ChildrenSplit(fs, dir, 0, i, MAX_FILES);
        TakeFull(DOTS + Children(fs, dir, 0, i), more, count);
        assert DOTS + Children(fs, dir, 0, i) + more == DOTS + Children(fs, dir, 0, MAX_FILES);
      }
    }
  }

  /** The buffer ramfs_create builds. */
  method BuildFullPath(path: CString) returns (fullPath: CString)
    requires |FullPath(Text(path))| < MAX_PATH
    ensures Text(fullPath) == FullPath(Text(path))
  {
    hide TextLen, Take, CStrings.TextLess;
    var buffer := new byte[MAX_PATH];
    var prefix := TMP + [SLASH];
    StoredText(prefix, []);
    assert prefix + [0] + [] == prefix + [0];
    PrefixTaken(Text(path), prefix);
    var r := CStrings.Strncmp(path, prefix + [0], 5);
    if r != 0 {
      CStrings.Strcpy(buffer, 0, prefix + [0]);
      CStrings.Strcat(buffer, path);
    } else {
      CStrings.Strcpy(buffer, 0, path);
    }
    fullPath := buffer[..];
  }
}
