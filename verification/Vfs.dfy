/** vfs.c and the file commands of shell.c on memory: descriptors for streams on RamFS slots, and the copy loop. */
module Vfs {
  import opened Bytes
  import opened RamSpec
  import opened RamFs
  import opened VfsSpec
  import opened Namespaces
  import CStrings

  class FileTable {
    const ram: Table
    const fdTable: array<VfsFile?>
    var nextFd: nat

    /** The open streams. */
    ghost function Streams(): set<object>
      reads fdTable
    {
      set f: VfsFile? | f in fdTable[..] && f != null :: f as object
    }

    ghost function StreamAt(fd: nat): Option<Stream>
      requires fd < fdTable.Length
      reads fdTable, Streams()
    {
      if fdTable[fd] == null then None else
        assert fdTable[fd] in fdTable[..];
        Some(Stream(fdTable[fd].slot, fdTable[fd].pos))
    }

    /** No two descriptors share a stream. */
    ghost predicate Valid()
      reads this, fdTable, Streams(), Memory(ram.files)
      ensures Valid() ==> ram.Valid() && Inv(View())
    {
      && ram.Valid() && fdTable.Length == MAX_FD && fdTable !in Memory(ram.files)
      && (forall i, j :: 0 <= i < j < MAX_FD && fdTable[i] != null ==> fdTable[i] != fdTable[j])
      && Inv(View())
    }

    ghost function View(): (s: Sys)
      requires ram.Valid()
      reads this, fdTable, Streams(), Memory(ram.files)
      ensures |s.fds| == fdTable.Length && s.files == ram.View() && s.nextFd == nextFd
      ensures forall fd :: 0 <= fd < |s.fds| ==> s.fds[fd] == StreamAt(fd)
    {
      Sys(ram.View(),
          seq(fdTable.Length, fd requires 0 <= fd < fdTable.Length reads fdTable, Streams() => StreamAt(fd)),
          nextFd)
    }

    lemma InStreams(fd: nat)
      requires fd < fdTable.Length && fdTable[fd] != null
      ensures fdTable[fd] in Streams()
    {
      assert fdTable[fd] in fdTable[..];
    }

    constructor ()
      ensures Valid() && fresh(Memory(ram.files)) && fresh(fdTable)
      ensures View() == Sys(seq(MAX_FILES, _ => File([], Zeros(MAX_CONTENT), 0, false)), seq(MAX_FD, _ => None), 0)
    {
      hide Memory;
      fdTable := new VfsFile?[MAX_FD](_ => null);
      ram := new Table();
      nextFd := 0;
    }

    /** alloc_fd */
    method AllocFd(file: VfsFile) returns (fd: int)
      requires Valid() && file !in Streams() && file.slot < MAX_FILES && file.pos == 0
      modifies this, fdTable
      ensures Valid() && (fd, View()) == VfsSpec.AllocFd(old(View()), file.slot)
      ensures Streams() <= old(Streams()) + {file}
    {
      hide Inv;
      if nextFd >= MAX_FD {
        return -1;
      }
      AllocKeeps(View(), file.slot);
      forall i | 0 <= i < MAX_FD
        ensures fdTable[i] != file
      {
        if fdTable[i] != null {
          InStreams(i);
        }
      }
      ghost var was := fdTable[..];
      ghost var s := View();
      fdTable[nextFd] := file;
      nextFd := nextFd + 1;
      assert fdTable[..] == was[nextFd - 1 := file];
      assert forall f :: f in fdTable[..] ==> f == file || f in was;
      assert View().fds == s.fds[nextFd - 1 := Some(Stream(file.slot, 0))];
      return nextFd - 1;
    }

    /** vfs_read */
    method Read(fd: int, buf: array<byte>, count: nat) returns (n: int)
      requires Valid() && count <= buf.Length && buf !in Memory(ram.files)
      modifies Streams(), buf
      ensures Valid() && Streams() == old(Streams())
      ensures var (r, x, s) := VfsSpec.Read(old(View()), fd, count);
              n == r && View() == s && buf[..] == Splice(old(buf[..]), 0, x)
    {
      if fd < 0 || fd >= MAX_FD || fdTable[fd] == null {
        return -1;
      }
      ghost var s := View();
      ApplyKeeps(s, ReadOp(fd, count));
      InStreams(fd);
      assert s.fds[fd] == StreamAt(fd);
      n := ram.Read(fdTable[fd], buf, count);
      assert View().fds == s.fds[fd := StreamAt(fd)];
    }

    /** vfs_write */
    method Write(fd: int, buf: seq<byte>, count: nat) returns (n: int)
      requires Valid() && count <= |buf|
      modifies Streams(), Memory(ram.files)
      ensures Valid() && Streams() == old(Streams())
      ensures (n, View()) == VfsSpec.Write(old(View()), fd, buf[..count])
    {
      if fd < 0 || fd >= MAX_FD || fdTable[fd] == null {
        return -1;
      }
      ghost var s := View();
      ApplyKeeps(s, WriteOp(fd, buf[..count]));
      InStreams(fd);
      assert s.fds[fd] == StreamAt(fd);
      assert ram.Slot(fdTable[fd].slot) in ram.files;
      n := ram.Write(fdTable[fd], buf, count);
      assert View().fds == s.fds[fd := StreamAt(fd)];
    }

    /** vfs_close */
    method Close(fd: int) returns (r: int)
      requires Valid()
      modifies fdTable
      ensures Valid() && (r, View()) == VfsSpec.Close(old(View()), fd)
    {
      if fd < 0 || fd >= MAX_FD || fdTable[fd] == null {
        return -1;
      }
      ghost var s := View();
      fdTable[fd] := null;
      assert View().fds == s.fds[fd := None];
      return 0;
    }

    /** Streams and slots are where they were. */
    twostate lemma Untouched()
      requires old(Valid()) && unchanged(this) && unchanged(fdTable)
      requires unchanged(old(Streams())) && unchanged(Memory(ram.files))
      ensures Valid() && View() == old(View()) && Streams() == old(Streams())
    {
    }

    /** Streams are where they were. */
    twostate lemma FilesChanged()
      requires old(Valid()) && unchanged(this) && unchanged(fdTable) && unchanged(old(Streams())) && ram.Valid()
      ensures View() == old(View()).(files := ram.View()) && Streams() == old(Streams())
      ensures Inv(View()) ==> Valid()
    {
      hide Inv;
      assert View().fds == old(View()).fds;
    }

    /** The part of vfs_create for RamFS. */
    method CreateRam(full: CString) returns (fd: int)
      requires Valid() && |FullPath(Text(full))| < MAX_PATH
      modifies this, fdTable, Memory(ram.files)
      ensures Valid() && (fd, View()) == VfsSpec.Create(old(View()), Text(full))
      ensures forall f :: f in Streams() ==> f in old(Streams()) || fresh(f)
    {
      hide Text, FullPath, Inv;
      CreateKeeps(View(), Text(full));
      var file := ram.Create(full);
      FilesChanged();
      if file == null {
        return -1;
      }
      fd := AllocFd(file);
    }

    /** vfs_open behind the choice of the file system. */
    method OpenRam(resolved: CString) returns (fd: int)
      requires Valid()
      modifies this, fdTable
      ensures Valid() && (fd, View()) == VfsSpec.Open(old(View()), Text(resolved))
      ensures forall f :: f in Streams() ==> f in old(Streams()) || fresh(f)
    {
      hide Text, Lookup, Inv;
      var file := ram.Open(resolved);
      Untouched();
      if file == null {
        return -1;
      }
      fd := AllocFd(file);
    }

    /** vfs_open; None when the path resolves into AbyssFS. */
    method Open(path: CString, ns: Namespace) returns (fd: Option<int>)
      requires Valid() && ns.Valid() && |Resolve(ns.View(), Text(path))| < VFS_MAX_PATH
      modifies this, fdTable
      ensures Valid()
      ensures var resolved := Resolve(ns.View(), Text(path));
              if TMP + [SLASH] <= resolved
              then fd.Some? && (fd.value, View()) == VfsSpec.Open(old(View()), resolved)
              else fd == None && View() == old(View())
      ensures forall f :: f in Streams() ==> f in old(Streams()) || fresh(f)
    {
      hide Text, Resolve, VfsSpec.Open, Inv;
      var resolved := ResolvedPath(path, ns);
      Untouched();
      var inTmp := InTmp(resolved);
      if !inTmp {
        return None;
      }
      var r := OpenRam(resolved);
      return Some(r);
    }

    /** vfs_create; None when the path lies in AbyssFS. */
    method Create(path: CString, cwd: CString) returns (fd: Option<int>)
      requires Valid() && Placed(Text(cwd), Text(path))
      requires InRamFs(Absolute(Text(cwd), Text(path))) ==> |FullPath(Absolute(Text(cwd), Text(path)))| < MAX_PATH
      modifies this, fdTable, Memory(ram.files)
      ensures Valid()
      ensures var full := Absolute(Text(cwd), Text(path));
              if InRamFs(full)
              then fd.Some? && (fd.value, View()) == VfsSpec.Create(old(View()), full)
              else fd == None && View() == old(View())
      ensures forall f :: f in Streams() ==> f in old(Streams()) || fresh(f)
    {
      hide Text, Absolute, FullPath, InRamFs, VfsSpec.Create, Inv, StreamAt;
      var full := AbsolutePath(cwd, path);
      Untouched();
      var inRam := BelongsToRamFs(full);
      if !inRam {
        return None;
      }
      var r := CreateRam(full);
      return Some(r);
    }

    /** cmd_cp between two files of RamFS. */
    method Cp(src: CString, dst: CString, ns: Namespace, cwd: CString)
      requires Valid() && ns.Valid() && CpOk(Resolve(ns.View(), Text(src)), Text(cwd), Text(dst))
      modifies this, fdTable, Streams(), Memory(ram.files)
      ensures Valid()
      ensures View() == VfsSpec.Cp(old(View()), Resolve(ns.View(), Text(src)), Absolute(Text(cwd), Text(dst)))
    {
      hide Text, Resolve, Absolute, FullPath, InRamFs, VfsSpec.Open, VfsSpec.Create, Inv, StreamAt, Copied, SourceData;
      ghost var s, from, to := View(), Resolve(ns.View(), Text(src)), Absolute(Text(cwd), Text(dst));
      var srcFd := Open(src, ns);
      if srcFd.value < 0 {
        return;
      }
      var dstFd := Create(dst, cwd);
      if dstFd.value < 0 {
        return;
      }
      CpStart(s, from, to);
      CopyLoop(srcFd.value, dstFd.value);
    }

    /** The part of vfs_unlink for RamFS. */
    method UnlinkRam(path: CString) returns (ok: bool)
      requires Valid()
      modifies Memory(ram.files)
      ensures Valid() && (ok, View()) == UnlinkFile(old(View()), Text(path))
    {
      hide Text, RamSpec.Unlink, Inv;
      UnlinkKeeps(View(), Text(path));
      ok := ram.Unlink(path);
      FilesChanged();
    }

    /** vfs_unlink with the two mounts of vfs_init: the full path chooses the file system, which is then asked for
        the path as given. None when that is AbyssFS, -1 also when no mount applies. */
    method Unlink(path: CString, cwd: CString) returns (r: Option<int>)
      requires Valid() && Placed(Text(cwd), Text(path))
      modifies Memory(ram.files)
      ensures Valid()
      ensures var full, s := Absolute(Text(cwd), Text(path)), old(View());
              var (ok, s') := UnlinkFile(s, Text(path));
              if TMP <= full then r == Some(if ok then 0 else -1) && View() == s'
              else View() == s && r == if full[0] == SLASH then None else Some(-1)
    {
      hide Text, Absolute, Placed, UnlinkFile, Inv, StreamAt;
      ghost var full := Absolute(Text(cwd), Text(path));
      var mount := MountOf(cwd, path);
      Untouched();
      if mount == None {
        return Some(-1);
      }
      if mount.value == 0 {
        return None;
      }
      var ok := UnlinkRam(path);
      return Some(if ok then 0 else -1);
    }

    /** cmd_mv between two files of RamFS. */
    method Mv(src: CString, dst: CString, ns: Namespace, cwd: CString)
      requires Valid() && ns.Valid() && CpOk(Resolve(ns.View(), Text(src)), Text(cwd), Text(dst))
      requires Placed(Text(cwd), Text(src)) && TMP <= Absolute(Text(cwd), Text(src))
      modifies this, fdTable, Streams(), Memory(ram.files)
      ensures Valid()
      ensures View() ==
              VfsSpec.Mv(old(View()), Resolve(ns.View(), Text(src)), Absolute(Text(cwd), Text(dst)), Text(src))
    {
      hide Text, Resolve, Absolute, CpOk, Placed, VfsSpec.Cp, UnlinkFile, Inv, StreamAt;
      Cp(src, dst, ns, cwd);
      var r := Unlink(src, cwd);
    }

    /** The loop of cmd_cp. */
    method CopyLoop(srcFd: int, dstFd: int)
      requires Valid() && 0 <= srcFd && 0 <= dstFd && CopyReady(View(), srcFd, dstFd)
      modifies Streams(), Memory(ram.files)
      ensures Valid()
      ensures var s := old(View());
              View() == Copied(s, srcFd, dstFd, |SourceData(s, srcFd, dstFd)|)
    {
      hide Copied, SourceData, CopyReady, Inv;
      var buf := new byte[1024];
      Untouched();
      CopyThrough(srcFd, dstFd, buf);
    }

    method CopyThrough(srcFd: int, dstFd: int, buf: array<byte>)
      requires Valid() && 0 <= srcFd && 0 <= dstFd && CopyReady(View(), srcFd, dstFd)
      requires buf !in Memory(ram.files) && buf.Length == 1024
      modifies Streams(), Memory(ram.files), buf
      ensures Valid()
      ensures var s := old(View());
              View() == Copied(s, srcFd, dstFd, |SourceData(s, srcFd, dstFd)|)
    {
      hide Valid, Streams, Memory;
      hide Copied, Fetched, SourceData, CopyReady, Inv, Splice, VfsSpec.Read, VfsSpec.Write;
      ghost var s := View();
      ghost var x := SourceData(s, srcFd, dstFd);
      CopyNothing(s, srcFd, dstFd);
      ghost var k := 0;
      while true
        invariant 0 <= k <= |x| && Streams() == old(Streams())
        invariant Valid() && View() == Copied(s, srcFd, dstFd, k)
        decreases |x| - k
      {
        ghost var was := buf[..];
        CopyRead(s, srcFd, dstFd, k, 1024);
        var n := Read(srcFd, buf, 1024);
        if n <= 0 {
          FetchNothing(s, srcFd, dstFd, k);
          break;
        }
        SplicePieces(was, 0, x[k..k + n]);
        CopyWrite(s, srcFd, dstFd, k, n);
        assert buf[..][..n] == x[k..k + n];
        var written := Write(dstFd, buf[..], n);
        if written < 0 || written != n {
          break;
        }
        k := k + n;
      }
    }
  }

  method BelongsToRamFs(full: CString) returns (r: bool)
    ensures r <==> InRamFs(Text(full))
  {
    hide TextLen, CStrings.TextLess;
    r := InTmp(full);
    StoredText(TMP, []);
    assert TMP + [0] + [] == TMP + [0];
    var d := CStrings.Strcmp(full, TMP + [0]);
    r := r || d == 0;
  }

  /** find_mount, as an index into the mount table. */
  method FindMount(mounts: seq<CString>, path: CString) returns (best: Option<nat>)
    ensures BestMount(seq(|mounts|, i requires 0 <= i < |mounts| => Text(mounts[i])), Text(path), best)
  {
    hide TextLen, Take, CStrings.TextLess;
    StoredText([SLASH], []);
    assert [SLASH] + [0] + [] == [SLASH, 0];
    var root := CStrings.Strcmp(path, [SLASH, 0]);
    if path[0] == 0 || root == 0 {
      return if |mounts| > 0 then Some(0) else None;
    }
    best := None;
    var bestLen, i := 0, 0;
    while i < |mounts|
      invariant 0 <= i <= |mounts|
      invariant best.None? ==> bestLen == 0
      invariant best.Some? ==> best.value < i && Text(mounts[best.value]) <= Text(path)
      invariant best.Some? ==> bestLen == |Text(mounts[best.value])| > 0
      invariant forall j :: 0 <= j < i && Text(mounts[j]) <= Text(path) ==>
                              |Text(mounts[j])| <= bestLen && (best.Some? && j < best.value ==> |Text(mounts[j])| < bestLen)
    {
      var mountLen := CStrings.Strlen(mounts[i]);
      PrefixTaken(Text(path), Text(mounts[i]));
      var d := CStrings.Strncmp(path, mounts[i], mountLen);
      if d == 0 {
        if mountLen > bestLen {
          bestLen := mountLen;
          best := Some(i);
        }
      }
      i := i + 1;
    }
  }

  /** find_mount of a full path in the table vfs_init sets up. */
  method MountOf(cwd: CString, path: CString) returns (mount: Option<nat>)
    requires Placed(Text(cwd), Text(path))
    ensures var full := Absolute(Text(cwd), Text(path));
            full != [] && mount == if TMP <= full then Some(1) else if full[0] == SLASH then Some(0) else None
  {
    hide TextLen;
    var full := AbsolutePath(cwd, path);
    StoredText([SLASH], []);
    StoredText(TMP, []);
    assert [SLASH] + [0] + [] == [SLASH, 0] && TMP + [0] + [] == TMP + [0];
    var mounts: seq<CString> := [[SLASH, 0], TMP + [0]];
    mount := FindMount(mounts, full);
    var paths := seq(|mounts|, i requires 0 <= i < |mounts| => Text(mounts[i]));
    assert paths == [[SLASH], TMP];
    BestOfInit(Text(full), mount);
  }

  /** The buffer vfs_create, vfs_unlink and vfs_mkdir build from a path. */
  method AbsolutePath(cwd: CString, path: CString) returns (full: CString)
    requires Placed(Text(cwd), Text(path))
    ensures Text(full) == Absolute(Text(cwd), Text(path))
  {
    hide TextLen, Splice;
    var buffer := new byte[VFS_MAX_PATH];
    if path[0] != SLASH {
      CStrings.Strcpy(buffer, 0, cwd);
      var n := CStrings.Strlen(buffer[..]);
      if buffer[n - 1] != SLASH {
        StoredText([SLASH], []);
        assert [SLASH] + [0] + [] == [SLASH, 0];
        CStrings.Strcat(buffer, [SLASH, 0]);
      }
      CStrings.Strcat(buffer, path);
    } else {
      CStrings.Strcpy(buffer, 0, path);
    }
    full := buffer[..];
  }

  /** resolve_path into a buffer of the caller. */
  method ResolvedPath(path: CString, ns: Namespace) returns (resolved: CString)
    requires ns.Valid() && |Resolve(ns.View(), Text(path))| < VFS_MAX_PATH
    ensures Text(resolved) == Resolve(ns.View(), Text(path))
  {
    var buffer := new byte[VFS_MAX_PATH];
    ns.ResolvePath(path, buffer);
    resolved := buffer[..];
  }

  /** `strncmp(path, "/tmp/", 5) == 0` */
  method InTmp(path: CString) returns (r: bool)
    ensures r <==> TMP + [SLASH] <= Text(path)
  {
    hide TextLen, Take, CStrings.TextLess;
    var prefix := TMP + [SLASH];
    StoredText(prefix, []);
    assert prefix + [0] + [] == prefix + [0];
    PrefixTaken(Text(path), prefix);
    var d := CStrings.Strncmp(path, prefix + [0], 5);
    return d == 0;
  }
}
