/** The descriptor table of vfs.c over the slots of ramfs.c as functions on values, and what cp and mv between
    two files of RamFS achieve. */
module VfsSpec {
  import opened Bytes
  import opened RamSpec
  import ShellPaths
  import Tokens

  const MAX_FD := 32

  datatype Stream = Stream(slot: nat, pos: nat)

  datatype Sys = Sys(files: seq<File>, fds: seq<Option<Stream>>, nextFd: nat)

  ghost predicate Inv(s: Sys)
  {
    && Shaped(s.files) && |s.fds| == MAX_FD && s.nextFd <= MAX_FD
    && (forall fd :: 0 <= fd < MAX_FD && s.fds[fd].Some? ==>
          fd < s.nextFd && s.fds[fd].value.slot < MAX_FILES && s.fds[fd].value.pos <= MAX_CONTENT)
  }

  predicate IsOpen(s: Sys, fd: int)
  {
    0 <= fd < |s.fds| && s.fds[fd].Some?
  }

  /** alloc_fd: descriptors are handed out once each, also after vfs_close. */
  function AllocFd(s: Sys, slot: nat): (int, Sys)
    requires |s.fds| == MAX_FD
  {
    if s.nextFd >= MAX_FD then (-1, s)
    else (s.nextFd as int, s.(fds := s.fds[s.nextFd := Some(Stream(slot, 0))], nextFd := s.nextFd + 1))
  }

  /** vfs_open of a path that resolves below "/tmp/". */
  function Open(s: Sys, path: seq<byte>): (int, Sys)
    requires |s.fds| == MAX_FD
  {
    var i := Lookup(s.files, path);
    if i == |s.files| then (-1, s) else AllocFd(s, i)
  }

  /** vfs_create of a full path in RamFS. A slot taken is not given back when no descriptor is left. */
  function Create(s: Sys, path: seq<byte>): (int, Sys)
    requires |s.fds| == MAX_FD && Shaped(s.files)
  {
    var (slot, files) := RamSpec.Create(s.files, path);
    if slot == None then (-1, s) else AllocFd(s.(files := files), slot.value)
  }

  /** vfs_read: the result, the bytes delivered, and the new state. */
  function Read(s: Sys, fd: int, count: nat): (int, seq<byte>, Sys)
    requires Inv(s)
  {
    if !IsOpen(s, fd) then (-1, [], s) else
      var f := s.fds[fd].value;
      var x := ReadOf(s.files[f.slot], f.pos, count);
      (|x|, x, s.(fds := s.fds[fd := Some(f.(pos := f.pos + |x|))]))
  }

  /** vfs_write */
  function Write(s: Sys, fd: int, x: seq<byte>): (int, Sys)
    requires Inv(s)
  {
    if !IsOpen(s, fd) then (-1, s) else
      var f := s.fds[fd].value;
      var n := Room(f.pos, |x|);
      (n as int, s.(files := s.files[f.slot := WriteOf(s.files[f.slot], f.pos, x)],
             fds := s.fds[fd := Some(f.(pos := f.pos + n))]))
  }

  /** vfs_close */
  function Close(s: Sys, fd: int): (int, Sys)
  {
    if !IsOpen(s, fd) then (-1, s) else (0, s.(fds := s.fds[fd := None]))
  }

  function UnlinkFile(s: Sys, path: seq<byte>): (bool, Sys)
  {
    var (ok, files) := RamSpec.Unlink(s.files, path);
    (ok, s.(files := files))
  }

  // ---- paths ----

  /** Where vfs_create puts a path that does not start with a slash. */
  function Absolute(cwd: seq<byte>, path: seq<byte>): seq<byte>
  {
    if path != [] && path[0] == SLASH then path
    else if cwd != [] && cwd[|cwd| - 1] == SLASH then cwd + path
    else cwd + [SLASH] + path
  }

  /** The buffer of vfs_create and vfs_unlink holds the full path, and a relative path has a cwd in front: of an
      empty one the code would look at the byte in front of the buffer. */
  predicate Placed(cwd: seq<byte>, path: seq<byte>)
  {
    |Absolute(cwd, path)| < VFS_MAX_PATH && (cwd != [] || (path != [] && path[0] == SLASH))
  }

  /** The full paths that vfs_create gives to RamFS. */
  predicate InRamFs(full: seq<byte>)
  {
    full == TMP || TMP + [SLASH] <= full
  }

  /** find_mount: the first of the longest mount paths that are prefixes of `path`. */
  ghost predicate BestMount(mounts: seq<seq<byte>>, path: seq<byte>, best: Option<nat>)
  {
    if path == [] || path == [SLASH] then best == if |mounts| > 0 then Some(0) else None
    else match best
      case None => forall j :: 0 <= j < |mounts| && mounts[j] <= path ==> mounts[j] == []
      case Some(k) =>
        && k < |mounts| && mounts[k] <= path && mounts[k] != []
        && forall j :: 0 <= j < |mounts| && mounts[j] <= path ==>
                         |mounts[j]| <= |mounts[k]| && (j < k ==> |mounts[j]| < |mounts[k]|)
  }

  /** With the two mounts of vfs_init. */
  lemma {:induction false} BestOfInit(path: seq<byte>, best: Option<nat>)
    requires BestMount([[SLASH], TMP], path, best) && path != []
    ensures best == if TMP <= path then Some(1) else if path[0] == SLASH then Some(0) else None
  {
    var mounts := [[SLASH], TMP];
    assert mounts[0] == [SLASH] && mounts[1] == TMP;
    assert [SLASH] <= path <==> path[0] == SLASH;
  }

  /** Then listing and unlinking go to RamFS for exactly the paths that start with "/tmp"; vfs_open agrees with
      that except on "/tmp" itself and on names that merely start with it. */
  lemma {:induction false} MountsOfInit(path: seq<byte>, best: Option<nat>)
    requires BestMount([[SLASH], TMP], path, best) && path != [] && path[0] == SLASH
    ensures best == Some(if TMP <= path then 1 else 0)
    ensures (best == Some(1) <==> TMP + [SLASH] <= path) <==> !(TMP <= path && (path == TMP || path[4] != SLASH))
  {
    BestOfInit(path, best);
  }

  /** A relative path is put behind the current directory: its components come behind those of the cwd. */
  lemma {:induction false} AbsoluteComponents(cwd: seq<byte>, path: seq<byte>)
    ensures var full := Absolute(cwd, path);
            if path != [] && path[0] == SLASH then full == path else
              && Tokens.Split(full, SLASHES) == Tokens.Split(cwd, SLASHES) + Tokens.Split(path, SLASHES)
              && cwd <= full && |full| <= |cwd| + 1 + |path| && |path| <= |full| && full[|full| - |path|..] == path
  {
    hide Tokens.SplitFrom;
    if !(path != [] && path[0] == SLASH) {
      if cwd != [] && cwd[|cwd| - 1] == SLASH {
        var front := cwd[..|cwd| - 1];
        assert front + [SLASH] == cwd && front + [SLASH] + [] == cwd && front + [SLASH] + path == cwd + path;
        Tokens.SplitJoined(front, SLASHES, path);
        Tokens.SplitJoined(front, SLASHES, []);
        Tokens.SplitEmpty(SLASHES);
      } else {
        Tokens.SplitJoined(cwd, SLASHES, path);
      }
    }
  }

  /** vfs_create goes to RamFS for exactly the directory "/tmp" and what lies below. */
  lemma {:induction false} InRamFsExact(names: seq<seq<byte>>)
    requires ShellPaths.AllNames(names)
    ensures InRamFs(ShellPaths.Render(names)) <==> names != [] && names[0] == TMP[1..]
  {
    hide ShellPaths.Join, InRamFs;
    if names == [] {
      RootNotInRamFs();
    } else {
      JoinFront(names);
      assert ShellPaths.Name(names[0]);
      FirstComponent(names[0], ShellPaths.Join(names[1..]));
    }
  }

  lemma {:induction false} RootNotInRamFs()
    ensures !InRamFs([SLASH])
  {
  }

  lemma {:induction false} FirstComponent(w: seq<byte>, rest: seq<byte>)
    requires w != [] && SLASH !in w && (rest == [] || rest[0] == SLASH)
    ensures InRamFs([SLASH] + w + rest) <==> w == TMP[1..]
  {
    var path, tmp := [SLASH] + w + rest, TMP + [SLASH];
    assert w[..|w|] == w;
    AbsentFrom(w, |w|, SLASH);
    if InRamFs(path) {
      assert path[1] == tmp[1] && path[2] == tmp[2] && path[3] == tmp[3] && (|path| > 4 ==> path[4] == SLASH);
      assert |w| == 3;
      assert w == TMP[1..];
    } else {
      assert rest == [] ==> [SLASH] + TMP[1..] + rest == TMP;
      assert rest != [] ==> tmp <= [SLASH] + TMP[1..] + rest;
    }
  }

  lemma {:induction false} JoinFront(names: seq<seq<byte>>)
    requires names != []
    ensures ShellPaths.Join(names) == [SLASH] + names[0] + ShellPaths.Join(names[1..])
    ensures ShellPaths.Join(names[1..]) != [] ==> ShellPaths.Join(names[1..])[0] == SLASH
    decreases |names|
  {
    var n := |names| - 1;
    if n > 0 {
      JoinFront(names[..n]);
      JoinFront(names[1..]);
      assert names[1..][..n - 1] == names[..n][1..];
      assert names[1..][n - 1] == names[n];
    } else {
      assert names[..0] == [] && names[1..] == [];
    }
  }

  // ---- when calls succeed ----

  /** vfs_open succeeds exactly when a used slot has the path and a descriptor is left. */
  lemma {:induction false} OpenSucceeds(s: Sys, path: seq<byte>)
    requires Inv(s)
    ensures Open(s, path).0 >= 0 <==>
            (exists i :: 0 <= i < MAX_FILES && s.files[i].used && s.files[i].path == path) && s.nextFd < MAX_FD
    ensures Open(s, path).0 < 0 ==> Open(s, path) == (-1, s)
    ensures Open(s, path).0 >= 0 ==>
              var fd := Open(s, path).0;
              Open(s, path).1.fds == s.fds[fd := Some(Stream(Lookup(s.files, path), 0))] && Open(s, path).1.files == s.files
  {
    hide Lookup;
    var i := Lookup(s.files, path);
    assert i < |s.files| ==> s.files[i].used;
  }

  /** vfs_create succeeds exactly when a slot and a descriptor are free. */
  lemma {:induction false} CreateSucceeds(s: Sys, path: seq<byte>)
    requires Inv(s)
    ensures Create(s, path).0 >= 0 <==> (exists i :: 0 <= i < MAX_FILES && !s.files[i].used) && s.nextFd < MAX_FD
    ensures (forall i :: 0 <= i < MAX_FILES ==> s.files[i].used) ==> Create(s, path) == (-1, s)
  {
    hide FirstFree;
    var i := FirstFree(s.files);
    assert i < |s.files| ==> !s.files[i].used;
  }

  /** A descriptor works exactly until it is closed. */
  lemma {:induction false} OpenFdWorks(s: Sys, fd: int, count: nat, x: seq<byte>)
    requires Inv(s)
    ensures IsOpen(s, fd) <==> Read(s, fd, count).0 >= 0
    ensures IsOpen(s, fd) <==> Write(s, fd, x).0 >= 0
    ensures IsOpen(s, fd) <==> Close(s, fd).0 == 0
    ensures !IsOpen(s, fd) ==> Read(s, fd, count).2 == Write(s, fd, x).1 == Close(s, fd).1 == s
    ensures !IsOpen(Close(s, fd).1, fd) && Close(s, fd).1.files == s.files
  {
  }

  // ---- whole runs ----

  datatype Op =
    | OpenOp(path: seq<byte>)
    | CreateOp(path: seq<byte>)
    | ReadOp(fd: int, count: nat)
    | WriteOp(fd: int, x: seq<byte>)
    | CloseOp(fd: int)
    | UnlinkOp(path: seq<byte>)

  function Apply(s: Sys, op: Op): Sys
    requires Inv(s)
  {
    match op
    case OpenOp(path) => Open(s, path).1
    case CreateOp(path) => Create(s, path).1
    case ReadOp(fd, count) => Read(s, fd, count).2
    case WriteOp(fd, x) => Write(s, fd, x).1
    case CloseOp(fd) => Close(s, fd).1
    case UnlinkOp(path) => UnlinkFile(s, path).1
  }

  lemma {:induction false} ApplyKeeps(s: Sys, op: Op)
    requires Inv(s)
    ensures Inv(Apply(s, op)) && s.nextFd <= Apply(s, op).nextFd
  {
  }

  lemma {:induction false} AllocKeeps(s: Sys, slot: nat)
    requires Inv(s) && slot < MAX_FILES
    ensures Inv(AllocFd(s, slot).1)
  {
  }

  /** A slot is taken even when no descriptor is left for it. */
  lemma {:induction false} CreateKeeps(s: Sys, path: seq<byte>)
    requires Inv(s)
    ensures Inv(Create(s, path).1)
    ensures Inv(s.(files := RamSpec.Create(s.files, path).1))
  {
  }

  lemma {:induction false} UnlinkKeeps(s: Sys, path: seq<byte>)
    requires Inv(s)
    ensures Inv(s.(files := RamSpec.Unlink(s.files, path).1))
  {
  }

  /** An open stream keeps its slot until it is closed; a descriptor once closed stays closed. */
  lemma {:induction false} StreamsStay(s: Sys, op: Op, fd: nat)
    requires Inv(s) && fd < s.nextFd
    ensures var s' := Apply(s, op);
            if s.fds[fd].None? || op == CloseOp(fd) then s'.fds[fd].None?
            else s'.fds[fd].Some? && s'.fds[fd].value.slot == s.fds[fd].value.slot
                 && s'.fds[fd].value.pos >= s.fds[fd].value.pos
  {
  }

  /** The descriptor that a call hands out, if any. */
  function Granted(s: Sys, op: Op): (r: seq<int>)
    requires Inv(s)
    ensures |r| <= 1
  {
    match op
    case OpenOp(path) => if Open(s, path).0 >= 0 then [Open(s, path).0] else []
    case CreateOp(path) => if Create(s, path).0 >= 0 then [Create(s, path).0] else []
    case _ => []
  }

  /** All descriptors handed out in a run, in order. */
  ghost function Descriptors(s: Sys, ops: seq<Op>): seq<int>
    requires Inv(s)
    decreases |ops|
  {
    if ops == [] then [] else
      ApplyKeeps(s, ops[0]);
      Granted(s, ops[0]) + Descriptors(Apply(s, ops[0]), ops[1..])
  }

  /** Over any run, with closes and unlinks in between, descriptors only increase: none is handed out twice, and
      there are never more than 32. */
  lemma {:induction false} DescriptorsIncrease(s: Sys, ops: seq<Op>)
    requires Inv(s)
    ensures var fds := Descriptors(s, ops);
            && (forall i :: 0 <= i < |fds| ==> s.nextFd <= fds[i] < MAX_FD)
            && (forall i, j :: 0 <= i < j < |fds| ==> fds[i] < fds[j])
            && s.nextFd + |fds| <= MAX_FD
    decreases |ops|
  {
    if ops != [] {
      ApplyKeeps(s, ops[0]);
      GrantedNext(s, ops[0]);
      DescriptorsIncrease(Apply(s, ops[0]), ops[1..]);
    }
  }

  lemma {:induction false} GrantedNext(s: Sys, op: Op)
    requires Inv(s)
    ensures Granted(s, op) == [] || Granted(s, op) == [s.nextFd]
    ensures Apply(s, op).nextFd == s.nextFd + |Granted(s, op)|
  {
  }

  // ---- cp ----

  /** What cmd_cp has set up before its loop: an untouched stream on the source, one on an empty destination. */
  ghost predicate CopyReady(s: Sys, a: nat, b: nat)
  {
    && Inv(s) && a < MAX_FD && b < MAX_FD && a != b && s.fds[a].Some? && s.fds[b].Some?
    && s.fds[a].value.slot != s.fds[b].value.slot
    && s.fds[a].value.pos == 0 && s.fds[b].value.pos == 0
    && s.files[s.fds[b].value.slot].size == 0
  }

  /** The bytes to be copied. */
  ghost function SourceData(s: Sys, a: nat, b: nat): (x: seq<byte>)
    requires CopyReady(s, a, b)
    ensures |x| <= MAX_CONTENT
  {
    Data(s.files[s.fds[a].value.slot])
  }

  /** The state when `k` bytes have been copied: both offsets are `k`, and so is the size of the destination. */
  ghost function Copied(s: Sys, a: nat, b: nat, k: nat): (s': Sys)
    requires CopyReady(s, a, b) && k <= |SourceData(s, a, b)|
    ensures Inv(s')
  {
    var src, dst := s.fds[a].value.slot, s.fds[b].value.slot;
    var f := s.files[dst];
    s.(files := s.files[dst := f.(content := Splice(f.content, 0, SourceData(s, a, b)[..k]), size := k)],
       fds := s.fds[a := Some(Stream(src, k))][b := Some(Stream(dst, k))])
  }

  /** The same with the next `n` bytes in the buffer of cmd_cp. */
  ghost function Fetched(s: Sys, a: nat, b: nat, k: nat, n: nat): (s': Sys)
    requires CopyReady(s, a, b) && k + n <= |SourceData(s, a, b)|
    ensures Inv(s')
  {
    var s' := Copied(s, a, b, k);
    s'.(fds := s'.fds[a := Some(Stream(s.fds[a].value.slot, k + n))])
  }

  lemma {:induction false} FetchNothing(s: Sys, a: nat, b: nat, k: nat)
    requires CopyReady(s, a, b) && k <= |SourceData(s, a, b)|
    ensures Fetched(s, a, b, k, 0) == Copied(s, a, b, k)
  {
    assert Fetched(s, a, b, k, 0).fds == Copied(s, a, b, k).fds;
  }

  lemma {:induction false} CopyNothing(s: Sys, a: nat, b: nat)
    requires CopyReady(s, a, b)
    ensures Copied(s, a, b, 0) == s
  {
    var c := Copied(s, a, b, 0);
    var dst := s.fds[b].value.slot;
    assert Splice(s.files[dst].content, 0, []) == s.files[dst].content;
    assert c.files[dst] == s.files[dst];
    assert c.files == s.files && c.fds == s.fds;
  }

  /** Reading from the source of a copy in progress delivers the next bytes of the original file. */
  lemma {:induction false} CopyRead(s: Sys, a: nat, b: nat, k: nat, count: nat)
    requires CopyReady(s, a, b) && k <= |SourceData(s, a, b)|
    ensures var x := SourceData(s, a, b);
            var n := Min(count, |x| - k);
            Read(Copied(s, a, b, k), a, count) == (n, x[k..k + n], Fetched(s, a, b, k, n))
  {
    var c := Copied(s, a, b, k);
    var src := s.fds[a].value.slot;
    var f, n := s.files[src], Min(count, |SourceData(s, a, b)| - k);
    assert c.files[src] == f && c.fds[a].value == Stream(src, k);
    assert ReadOf(f, k, count) == Data(f)[k..k + n];
  }

  /** Writing them to the destination is never cut short, and `k + n` bytes are copied then. */
  lemma {:induction false} CopyWrite(s: Sys, a: nat, b: nat, k: nat, n: nat)
    requires CopyReady(s, a, b) && k + n <= |SourceData(s, a, b)|
    ensures Write(Fetched(s, a, b, k, n), b, SourceData(s, a, b)[k..k + n]) == (n, Copied(s, a, b, k + n))
  {
    var dst := s.fds[b].value.slot;
    var r, c, x := Fetched(s, a, b, k, n), Copied(s, a, b, k + n), SourceData(s, a, b);
    assert r.fds[b].value == Stream(dst, k);
    SpliceTwice(s.files[dst].content, x, k, n);
    var w := Write(r, b, x[k..k + n]).1;
    assert x[k..k + n][..n] == x[k..k + n];
    assert w.fds == c.fds;
    assert w.files[dst] == c.files[dst];
    assert w.files == c.files;
  }

  lemma {:induction false} SpliceTwice(d: seq<byte>, x: seq<byte>, k: nat, n: nat)
    requires k + n <= |x| <= |d|
    ensures Splice(Splice(d, 0, x[..k]), k, x[k..k + n]) == Splice(d, 0, x[..k + n])
  {
  }

  /** The copy is complete: same size and bytes, and nothing else changed in any file. */
  lemma {:induction false} CopyDone(s: Sys, a: nat, b: nat)
    requires CopyReady(s, a, b)
    ensures var src, dst := s.fds[a].value.slot, s.fds[b].value.slot;
            var s' := Copied(s, a, b, |SourceData(s, a, b)|);
            && Inv(s') && s'.nextFd == s.nextFd
            && s'.files[dst].size == s.files[src].size && Data(s'.files[dst]) == Data(s.files[src])
            && s'.files[dst].path == s.files[dst].path && s'.files[dst].used == s.files[dst].used
            && forall i :: 0 <= i < MAX_FILES && i != dst ==> s'.files[i] == s.files[i]
  {
    var x := SourceData(s, a, b);
    SplicePieces(s.files[s.fds[b].value.slot].content, 0, x);
    assert x[..|x|] == x;
  }

  /** The two open calls of cmd_cp, when both succeed, set up the loop: in particular the slot taken for the
      destination is never that of the source. */
  lemma {:induction false} CpStart(s: Sys, src: seq<byte>, dst: seq<byte>)
    requires Inv(s) && Open(s, src).0 >= 0 && Create(Open(s, src).1, dst).0 >= 0
    ensures var (a, s1) := Open(s, src);
            var (b, s2) := Create(s1, dst);
            && CopyReady(s2, a, b)
            && s2.fds[a].value.slot == Lookup(s.files, src)
            && s2.fds[b].value.slot == FirstFree(s.files)
            && s2.files == s.files[FirstFree(s.files) := Emptied(s.files[FirstFree(s.files)], FullPath(dst))]
  {
    hide FullPath;
  }

  /** What cp between two files of RamFS takes: paths that fit their buffers and lie there. */
  predicate CpOk(from: seq<byte>, cwd: seq<byte>, dst: seq<byte>)
  {
    && TMP + [SLASH] <= from && |from| < VFS_MAX_PATH
    && Placed(cwd, dst) && InRamFs(Absolute(cwd, dst)) && |FullPath(Absolute(cwd, dst))| < MAX_PATH
  }

  /** cmd_cp on resolved paths: the state in which it returns. */
  ghost function Cp(s: Sys, src: seq<byte>, dst: seq<byte>): Sys
    requires Inv(s)
  {
    var (a, s1) := Open(s, src);
    if a < 0 then s1 else
      var (b, s2) := Create(s1, dst);
      if b < 0 then s2 else
        CpStart(s, src, dst);
        Copied(s2, a, b, |SourceData(s2, a, b)|)
  }

  /** cp stores the bytes of the source in a new file and leaves every file that existed alone; the copy is what
      the destination path opens afterwards exactly when no earlier slot has that path. */
  lemma {:induction false} CpCopies(s: Sys, src: seq<byte>, dst: seq<byte>)
    requires Inv(s) && Open(s, src).0 >= 0 && Create(Open(s, src).1, dst).0 >= 0
    ensures var s' := Cp(s, src, dst);
            var i, j := Lookup(s.files, src), FirstFree(s.files);
            && i < MAX_FILES && j < MAX_FILES && i != j && Inv(s') && s'.nextFd == s.nextFd + 2
            && s'.files[j].used && s'.files[j].path == FullPath(dst)
            && Data(s'.files[j]) == Data(s.files[i])
            && (forall k :: 0 <= k < MAX_FILES && k != j ==> s'.files[k] == s.files[k])
            && (Lookup(s'.files, FullPath(dst)) == j <==> Lookup(s.files, FullPath(dst)) >= j)
  {
    hide Lookup, FirstFree, FullPath, Copied;
    CpStart(s, src, dst);
    var (a, s1) := Open(s, src);
    var (b, s2) := Create(s1, dst);
    CopyDone(s2, a, b);
    CreatedIsFound(s.files, dst);
    var s' := Cp(s, src, dst);
    SamePathsSameLookup(s2.files, s'.files, FullPath(dst));
  }

  lemma {:induction false} SamePathsSameLookup(fs: seq<File>, gs: seq<File>, path: seq<byte>)
    requires |fs| == |gs| && forall i :: 0 <= i < |fs| ==> gs[i].used == fs[i].used && gs[i].path == fs[i].path
    ensures Lookup(gs, path) == Lookup(fs, path)
  {
    hide Lookup;
    var a, b := Lookup(fs, path), Lookup(gs, path);
  }

  // ---- mv ----

  /** cmd_mv: `from` is what vfs_open makes of the source, `to` the full path of the destination, and the source
      name itself is unlinked, whether or not the copy succeeded. */
  ghost function Mv(s: Sys, from: seq<byte>, to: seq<byte>, src: seq<byte>): Sys
    requires Inv(s)
  {
    UnlinkFile(Cp(s, from, to), src).1
  }

  /** The path opens a file with these bytes. */
  ghost predicate Holds(s: Sys, path: seq<byte>, data: seq<byte>)
    requires Inv(s)
  {
    var i := Lookup(s.files, path);
    i < |s.files| && Data(s.files[i]) == data
  }

  /** Is the new slot the one that the unlink of mv takes away again? */
  predicate UnlinksCopy(s: Sys, to: seq<byte>, src: seq<byte>)
  {
    s.nextFd < MAX_FD && FullPath(to) == src && FirstFree(s.files) < Lookup(s.files, src)
  }

  /** Which slot the destination opens after mv, told from the state before: the copy, if one could be made in
      front of every other file of that path that stays; else such a file. */
  ghost predicate MvKeeps(s: Sys, from: seq<byte>, to: seq<byte>, src: seq<byte>)
    requires Inv(s) && Lookup(s.files, from) < MAX_FILES
  {
    var f := s.files[Lookup(s.files, from)];
    if UnlinksCopy(s, to, src) then Holds(s, src, Data(f)) else
      var other := Lookup(RamSpec.Unlink(s.files, src).1, FullPath(to));
      if s.nextFd < MAX_FD && FirstFree(s.files) < other
      then s.nextFd + 2 <= MAX_FD || f.size == 0
      else other < MAX_FILES && Data(s.files[other]) == Data(f)
  }

  /** Unlinking leaves the lookups that do not end at the slot it frees. */
  lemma {:induction false} AfterUnlink(fs: seq<File>, gs: seq<File>, j: nat, full: seq<byte>, src: seq<byte>)
    requires j < |fs| == |gs| && !fs[j].used && gs[j].used && gs[j].path == full
    requires forall k :: 0 <= k < |fs| && k != j ==> gs[k] == fs[k]
    ensures var other, hs := Lookup(RamSpec.Unlink(fs, src).1, full), RamSpec.Unlink(gs, src).1;
            if full == src && j < Lookup(fs, src) then Lookup(hs, full) == Lookup(fs, full)
            else Lookup(hs, full) == (if j < other then j else other) && hs[j] == gs[j]
    ensures forall k :: 0 <= k < |fs| && k != j && RamSpec.Unlink(gs, src).1[k].used ==> RamSpec.Unlink(gs, src).1[k] == fs[k]
  {
    hide Lookup;
    var i, i' := Lookup(fs, src), Lookup(gs, src);
    var fs', hs := RamSpec.Unlink(fs, src).1, RamSpec.Unlink(gs, src).1;
    var other, k := Lookup(fs', full), Lookup(hs, full);
    if full == src && j < i {
      assert i' == j;
      assert forall m :: 0 <= m < |fs| && m != j ==> hs[m] == fs[m];
    } else {
      assert i' == i by {
        assert i < |fs| ==> gs[i] == fs[i];
      }
      assert forall m :: 0 <= m < |fs| && m != j ==> hs[m] == fs'[m];
      assert !fs'[j].used && hs[j] == gs[j];
    }
  }

  lemma {:induction false} OnlyUnlinked(fs: seq<File>, src: seq<byte>)
    ensures var hs := RamSpec.Unlink(fs, src).1;
            |hs| == |fs| && forall k :: 0 <= k < |fs| && hs[k].used ==> hs[k] == fs[k]
  {
    hide Lookup;
  }

  /** After mv the destination has the bytes of the source exactly when MvKeeps says so. */
  lemma {:induction false} MvExact(s: Sys, from: seq<byte>, to: seq<byte>, src: seq<byte>)
    requires Inv(s) && Lookup(s.files, from) < MAX_FILES
    ensures Inv(Mv(s, from, to, src))
    ensures Holds(Mv(s, from, to, src), FullPath(to), Data(s.files[Lookup(s.files, from)])) <==> MvKeeps(s, from, to, src)
  {
    hide Lookup, FirstFree, FullPath, Copied;
    var c, full, j := Cp(s, from, to), FullPath(to), FirstFree(s.files);
    var f := s.files[Lookup(s.files, from)];
    CpOutcome(s, from, to);
    ApplyKeeps(c, UnlinkOp(src));
    var hs := Mv(s, from, to, src).files;
    OnlyUnlinked(s.files, src);
    OnlyUnlinked(c.files, src);
    if s.nextFd < MAX_FD && j < MAX_FILES {
      AfterUnlink(s.files, c.files, j, full, src);
      assert |Data(f)| == f.size;
    }
  }

  /** What cp leaves in the slots, also when a call fails. */
  lemma {:induction false} CpOutcome(s: Sys, from: seq<byte>, to: seq<byte>)
    requires Inv(s) && Lookup(s.files, from) < MAX_FILES
    ensures var c, j := Cp(s, from, to), FirstFree(s.files);
            && Inv(c)
            && if s.nextFd == MAX_FD || j == MAX_FILES then c.files == s.files else
                 && c.files[j].used && c.files[j].path == FullPath(to)
                 && Data(c.files[j]) == (if s.nextFd + 2 <= MAX_FD then Data(s.files[Lookup(s.files, from)]) else [])
                 && forall k :: 0 <= k < MAX_FILES && k != j ==> c.files[k] == s.files[k]
  {
    hide Lookup, FirstFree, FullPath, Copied;
    ApplyKeeps(s, OpenOp(from));
    ApplyKeeps(Open(s, from).1, CreateOp(to));
    if s.nextFd + 2 <= MAX_FD && FirstFree(s.files) < MAX_FILES {
      CpCopies(s, from, to);
    }
  }

  /** MvExact for a source whose name resolves to itself and a destination of another name: where an earlier slot
      already has the name, the copy is not what the name opens. */
  lemma {:induction false} MvToOtherName(s: Sys, src: seq<byte>, to: seq<byte>)
    requires Inv(s) && Lookup(s.files, src) < MAX_FILES && FullPath(to) != src
    ensures Inv(Mv(s, src, to, src))
    ensures var f, j, e := s.files[Lookup(s.files, src)], FirstFree(s.files), Lookup(s.files, FullPath(to));
            Holds(Mv(s, src, to, src), FullPath(to), Data(f)) <==>
            if s.nextFd < MAX_FD && j < e then s.nextFd + 2 <= MAX_FD || f.size == 0
            else e < MAX_FILES && Data(s.files[e]) == Data(f)
  {
    hide Lookup, FirstFree, FullPath, Mv, Holds;
    MvExact(s, src, to, src);
    var full, fs, hs := FullPath(to), s.files, RamSpec.Unlink(s.files, src).1;
    OnlyUnlinked(fs, src);
    var e, other := Lookup(fs, full), Lookup(hs, full);
    assert e < |fs| ==> hs[e] == fs[e];
  }

  /** After mv to another name, the slot that the source name opened is unused, whether or not the bytes were copied; and
      every slot but that one and the new one is as before. */
  lemma {:induction false} MvFreesSource(s: Sys, src: seq<byte>, to: seq<byte>)
    requires Inv(s) && Lookup(s.files, src) < MAX_FILES && FullPath(to) != src
    ensures var i, j, after := Lookup(s.files, src), FirstFree(s.files), Mv(s, src, to, src).files;
            && |after| == MAX_FILES && !after[i].used
            && forall k :: 0 <= k < MAX_FILES && k != i && k != j ==> after[k] == s.files[k]
  {
    hide Lookup, FirstFree, FullPath, Copied, Cp;
    var i, j, c := Lookup(s.files, src), FirstFree(s.files), Cp(s, src, to);
    CpOutcome(s, src, to);
    assert s.files[i].used && i != j;
    assert c.files[i] == s.files[i];
    assert Lookup(c.files, src) == i;
  }

  /** Two files of one byte, "/tmp/b" in front of "/tmp/a", and room for more. */
  function TwoFiles(): Sys
  {
    var one := File(TMP + [SLASH, 98], Fill(1, MAX_CONTENT), 1, true);
    var two := File(TMP + [SLASH, 97], Fill(2, MAX_CONTENT), 1, true);
    Sys([one, two] + seq(MAX_FILES - 2, _ => File([], Zeros(MAX_CONTENT), 0, false)), seq(MAX_FD, _ => None), 0)
  }

  /** There `mv /tmp/a /tmp/b` has a free slot and all its descriptors, and still loses the bytes of "/tmp/a". */
  lemma {:induction false} MvLosesBytes()
    ensures var s, a, b := TwoFiles(), TMP + [SLASH, 97], TMP + [SLASH, 98];
            && Inv(s) && Lookup(s.files, a) == 1 && FirstFree(s.files) == 2
            && Inv(Mv(s, a, b, a)) && !Holds(Mv(s, a, b, a), b, Data(s.files[1]))
  {
    hide Lookup, FirstFree, Mv, Holds, Fill;
    var s, a, b := TwoFiles(), TMP + [SLASH, 97], TMP + [SLASH, 98];
    FilledWith(1);
    FilledWith(2);
    FilledWith(0);
    assert s.files[0].path == b && s.files[1].path == a && a[5] != b[5];
    assert Lookup(s.files, a) == 1 && Lookup(s.files, b) == 0;
    assert s.files[0].used && s.files[1].used && !s.files[2].used;
    assert FullPath(b) == b by {
      assert TMP + [SLASH] <= b;
    }
    MvToOtherName(s, a, b);
    assert Data(s.files[0])[0] == 1 && Data(s.files[1])[0] == 2;
  }

  lemma {:induction false} FilledWith(c: byte)
    ensures |Fill(c, MAX_CONTENT)| == MAX_CONTENT && Fill(c, MAX_CONTENT)[0] == c
  {
  }
}
