/** ramfs.c as a table of sixteen file slots, and the directory listings computed from their paths. */
module RamSpec {
  import opened Bytes
  import CStrings

  const MAX_FILES := 16
  const MAX_PATH := 32
  const MAX_CONTENT := 4096

  /** "/tmp" */
  const TMP: seq<byte> := [47, 116, 109, 112]

  // ---- the slot table as a value ----

  datatype File = File(path: seq<byte>, content: seq<byte>, size: nat, used: bool)

  predicate Shape(f: File)
  {
    |f.content| == MAX_CONTENT && f.size <= MAX_CONTENT
  }

  ghost predicate Shaped(fs: seq<File>)
  {
    |fs| == MAX_FILES && forall i :: 0 <= i < |fs| ==> Shape(fs[i])
  }

  function Data(f: File): seq<byte>
    requires Shape(f)
  {
    f.content[..f.size]
  }

  /** First used slot with this path, or the number of slots. */
  function Lookup(fs: seq<File>, path: seq<byte>): (i: nat)
    ensures i <= |fs|
    ensures i < |fs| ==> fs[i].used && fs[i].path == path
    ensures forall j :: 0 <= j < i ==> !(fs[j].used && fs[j].path == path)
  {
    if fs == [] || (fs[0].used && fs[0].path == path) then 0 else 1 + Lookup(fs[1..], path)
  }

  /** First unused slot, or the number of slots. */
  function FirstFree(fs: seq<File>): (i: nat)
    ensures i <= |fs|
    ensures i < |fs| ==> !fs[i].used
    ensures forall j :: 0 <= j < i ==> fs[j].used
  {
    if fs == [] || !fs[0].used then 0 else 1 + FirstFree(fs[1..])
  }

  /** The path ramfs_create stores: paths outside "/tmp/" are put under it. */
  function FullPath(path: seq<byte>): seq<byte>
  {
    if TMP + [SLASH] <= path then path else TMP + [SLASH] + path
  }

  /** An emptied slot keeps its old bytes, except for the first. */
  function Emptied(f: File, path: seq<byte>): File
    requires Shape(f)
  {
    File(path, f.content[0 := 0], 0, true)
  }

  /** ramfs_create: the slot taken, if one is free. */
  function Create(fs: seq<File>, path: seq<byte>): (Option<nat>, seq<File>)
    requires Shaped(fs)
  {
    var i := FirstFree(fs);
    if i == |fs| then (None, fs) else (Some(i), fs[i := Emptied(fs[i], FullPath(path))])
  }

  /** ramfs_unlink */
  function Unlink(fs: seq<File>, path: seq<byte>): (bool, seq<File>)
  {
    var i := Lookup(fs, path);
    if i == |fs| then (false, fs) else (true, fs[i := fs[i].(used := false, size := 0)])
  }

  /** The bytes ramfs_read delivers. */
  function ReadOf(f: File, pos: nat, count: nat): (x: seq<byte>)
    requires Shape(f)
    ensures |x| <= count && pos + |x| <= if |x| == 0 then pos else f.size
  {
    if pos >= f.size then [] else f.content[pos..Min(pos + count, f.size)]
  }

  /** How much of `count` bytes fits behind `pos`. */
  function Room(pos: nat, count: nat): (n: nat)
    requires pos <= MAX_CONTENT
    ensures pos + n <= MAX_CONTENT && n <= count
  {
    Min(count, MAX_CONTENT - pos)
  }

  /** The slot after ramfs_write. */
  function WriteOf(f: File, pos: nat, x: seq<byte>): (g: File)
    requires Shape(f) && pos <= MAX_CONTENT
    ensures Shape(g)
  {
    var n := Room(pos, |x|);
    if n == 0 then f
    else f.(content := Splice(f.content, pos, x[..n]), size := if pos + n > f.size then pos + n else f.size)
  }

  /** A write that fits stores its bytes at the position and leaves all others; the file grows only when the write
      passes its end, and then ends behind it. What does not fit in 4096 bytes is cut off. */
  lemma {:induction false} WriteExact(f: File, pos: nat, x: seq<byte>)
    requires Shape(f) && pos <= MAX_CONTENT
    ensures var g, end := WriteOf(f, pos, x), if pos + |x| <= MAX_CONTENT then pos + |x| else MAX_CONTENT;
            && g.path == f.path && g.used == f.used
            && (forall k :: 0 <= k < MAX_CONTENT ==> g.content[k] == if pos <= k < end then x[k - pos] else f.content[k])
            && (x == [] || end == pos || end <= f.size ==> g.size == f.size)
            && (x != [] && end > pos && end > f.size ==> g.size == end)
  {
  }

  /** In front of the end: same size, and the bytes around the new ones stay. */
  lemma {:induction false} WriteInside(f: File, pos: nat, x: seq<byte>)
    requires Shape(f) && pos + |x| <= f.size
    ensures var g := WriteOf(f, pos, x);
            && |Data(g)| == g.size == f.size
            && forall k :: 0 <= k < f.size ==> Data(g)[k] == if pos <= k < pos + |x| then x[k - pos] else Data(f)[k]
  {
    WriteExact(f, pos, x);
  }

  /** Bytes written are read back at the same place. */
  lemma {:induction false} WrittenIsRead(f: File, pos: nat, x: seq<byte>)
    requires Shape(f) && pos + |x| <= MAX_CONTENT
    ensures ReadOf(WriteOf(f, pos, x), pos, |x|) == x
  {
    WriteExact(f, pos, x);
  }

  /** Every file lies under "/tmp/", under its own name if that is there already. */
  lemma {:induction false} FullPathExact(path: seq<byte>)
    ensures var full := FullPath(path);
            && TMP + [SLASH] <= full && |full| >= |path| && full[|full| - |path|..] == path
            && (full == path <==> TMP + [SLASH] <= path) && (full != path ==> |full| == |path| + 5)
  {
  }

  /** create fails exactly when every slot is used; else the first unused slot holds an empty file under the full path,
      with its first byte cleared, and nothing else changes. */
  lemma {:induction false} CreateExact(fs: seq<File>, path: seq<byte>)
    requires Shaped(fs)
    ensures var (slot, gs) := Create(fs, path);
            && Shaped(gs)
            && (slot == None <==> forall i :: 0 <= i < |fs| ==> fs[i].used)
            && (slot == None ==> gs == fs)
            && (slot.Some? ==>
                  var i := slot.value;
                  && i < |fs| && !fs[i].used && (forall j :: 0 <= j < i ==> fs[j].used)
                  && gs[i].used && gs[i].path == FullPath(path) && gs[i].size == 0 && Data(gs[i]) == []
                  && gs[i].content[0] == 0 && gs[i].content[1..] == fs[i].content[1..]
                  && forall j :: 0 <= j < |fs| && j != i ==> gs[j] == fs[j])
  {
    hide FirstFree, FullPath;
    var i := FirstFree(fs);
  }

  /** unlink fails exactly when no used slot has the path; else exactly the first such slot becomes unused. */
  lemma {:induction false} UnlinkExact(fs: seq<File>, path: seq<byte>)
    ensures var (ok, gs) := Unlink(fs, path);
            && |gs| == |fs|
            && (ok <==> exists i :: 0 <= i < |fs| && fs[i].used && fs[i].path == path)
            && (!ok ==> gs == fs)
            && (ok ==> exists i :: 0 <= i < |fs| && fs[i].used && fs[i].path == path
                         && gs[i] == File(path, fs[i].content, 0, false)
                         && (forall j :: 0 <= j < i ==> !(fs[j].used && fs[j].path == path))
                         && (forall j :: 0 <= j < |fs| && j != i ==> gs[j] == fs[j]))
  {
    hide Lookup;
    var i, gs := Lookup(fs, path), Unlink(fs, path).1;
    if i < |fs| {
      assert gs[i] == File(path, fs[i].content, 0, false);
    }
  }

  // ---- what a directory contains ----

  /** The last component of `f` when it lies directly in the directory `d`. */
  function Base(f: seq<byte>, d: seq<byte>): Option<seq<byte>>
  {
    if d <= f && |d| < |f| && f[|d|] == SLASH && SLASH !in f[|d| + 1..] then Some(f[|d| + 1..]) else None
  }

  lemma {:induction false} BaseExact(f: seq<byte>, d: seq<byte>, b: seq<byte>)
    ensures Base(f, d) == Some(b) <==> f == d + [SLASH] + b && SLASH !in b
  {
    if f == d + [SLASH] + b {
      assert f[|d| + 1..] == b && f[|d|] == SLASH && d <= f;
    }
  }

  /** Where the last slash of `f` is decides whether `f` lies directly in `d`. */
  lemma {:induction false} BaseByLastSlash(f: seq<byte>, d: seq<byte>)
    requires d <= f
    ensures Base(f, d).Some? <==> CStrings.LastIndex(f, SLASH) == Some(|d|)
    ensures Base(f, d).Some? <==> |d| < |f| && f[|d|] == SLASH && CStrings.LastIndex(f[|d| + 1..], SLASH) == None
  {
    if Base(f, d).Some? {
      forall j | |d| < j < |f|
        ensures f[j] != SLASH
      {
        assert f[j] == f[|d| + 1..][j - |d| - 1];
      }
      CStrings.LastIndexIs(f, SLASH, |d|);
    }
  }

  datatype Dirent = Dirent(inode: nat, name: seq<byte>)

  /** The entry of slot `i` in a listing of `dir`, if it has one. */
  function Listed(fs: seq<File>, dir: seq<byte>, i: nat): (es: seq<Dirent>)
    requires i < |fs|
    ensures |es| <= 1
  {
    if fs[i].used && Base(fs[i].path, dir).Some? then [Dirent(i + 2, Base(fs[i].path, dir).value)] else []
  }

  /** The entries of the slots from `lo` up to `hi`, in slot order. */
  function Children(fs: seq<File>, dir: seq<byte>, lo: nat, hi: nat): seq<Dirent>
    requires lo <= hi <= |fs|
  {
    if lo == hi then [] else Children(fs, dir, lo, hi - 1) + Listed(fs, dir, hi - 1)
  }

  const DOTS := [Dirent(1, [DOT]), Dirent(1, [DOT, DOT])]

  /** ramfs_read_dir, before the cut at the caller's count. */
  function Listing(fs: seq<File>, dir: seq<byte>): seq<Dirent>
  {
    DOTS + Children(fs, dir, 0, |fs|)
  }

  /** A listing has an entry for exactly the used slots whose path is the directory, a slash and a name
      without slashes, and the entries are in slot order. */
  lemma {:induction false} ChildrenExact(fs: seq<File>, dir: seq<byte>, n: nat)
    requires n <= |fs|
    ensures forall i: nat, b :: Dirent(i, b) in Children(fs, dir, 0, n) <==>
                                  2 <= i < n + 2 && fs[i - 2].used && fs[i - 2].path == dir + [SLASH] + b && SLASH !in b
    ensures forall j, k :: 0 <= j < k < |Children(fs, dir, 0, n)| ==>
                             Children(fs, dir, 0, n)[j].inode < Children(fs, dir, 0, n)[k].inode
  {
    if n > 0 {
      ChildrenExact(fs, dir, n - 1);
      var before, last := Children(fs, dir, 0, n - 1), Listed(fs, dir, n - 1);
      forall i: nat, b
        ensures Dirent(i, b) in before + last <==>
                2 <= i < n + 2 && fs[i - 2].used && fs[i - 2].path == dir + [SLASH] + b && SLASH !in b
      {
        BaseExact(fs[n - 1].path, dir, b);
        assert Dirent(i, b) in last <==> i == n + 1 && fs[n - 1].used && Base(fs[n - 1].path, dir) == Some(b);
      }
      forall j | 0 <= j < |before|
        ensures before[j].inode < n + 1
      {
        var e := before[j];
        assert Dirent(e.inode, e.name) in before;
      }
    }
  }

  lemma {:induction false} ChildrenSame(fs: seq<File>, gs: seq<File>, dir: seq<byte>, lo: nat, hi: nat)
    requires lo <= hi <= |fs| && |gs| == |fs|
    requires forall i :: lo <= i < hi ==> fs[i].used == gs[i].used && (fs[i].used ==> fs[i].path == gs[i].path)
    ensures Children(gs, dir, lo, hi) == Children(fs, dir, lo, hi)
  {
    hide Base;
    if lo < hi {
      ChildrenSame(fs, gs, dir, lo, hi - 1);
    }
  }

  lemma {:induction false} ChildrenSplit(fs: seq<File>, dir: seq<byte>, lo: nat, mid: nat, hi: nat)
    requires lo <= mid <= hi <= |fs|
    ensures Children(fs, dir, lo, hi) == Children(fs, dir, lo, mid) + Children(fs, dir, mid, hi)
  {
    hide Base, Listed;
    if mid < hi {
      ChildrenSplit(fs, dir, lo, mid, hi - 1);
    }
  }

  lemma {:induction false} OneSlot(fs: seq<File>, gs: seq<File>, dir: seq<byte>, i: nat)
    requires i < |fs| == |gs| && forall j :: 0 <= j < |fs| && j != i ==> gs[j] == fs[j]
    ensures Children(gs, dir, 0, |gs|) ==
              Children(fs, dir, 0, i) + Listed(gs, dir, i) + Children(fs, dir, i + 1, |fs|)
  {
    hide Listed;
    ChildrenSame(fs, gs, dir, 0, i);
    ChildrenSame(fs, gs, dir, i + 1, |fs|);
    ChildrenSplit(gs, dir, 0, i + 1, |fs|);
  }

  /** Creating a file inserts its name in the listing of its directory, at the place of its slot, and
      changes no other listing. */
  lemma {:induction false} CreateInsertsName(fs: seq<File>, path: seq<byte>, dir: seq<byte>)
    requires Shaped(fs) && Create(fs, path).0.Some?
    ensures var (slot, gs) := Create(fs, path);
            var i := slot.value;
            var base := Base(FullPath(path), dir);
            var before, after := Children(fs, dir, 0, i), Children(fs, dir, i + 1, |fs|);
            && Listing(fs, dir) == DOTS + (before + after)
            && Listing(gs, dir) == DOTS + (before + (if base.Some? then [Dirent(i + 2, base.value)] else []) + after)
  {
    var i, gs := Create(fs, path).0.value, Create(fs, path).1;
    hide Children, Base, FirstFree;
    OneSlot(fs, fs, dir, i);
    OneSlot(fs, gs, dir, i);
    var before := Children(fs, dir, 0, i);
    assert before + [] == before;
  }

  /** A path opens the file just created under it exactly when no slot in front of the new one has that path. */
  lemma {:induction false} CreatedIsFound(fs: seq<File>, path: seq<byte>)
    requires Shaped(fs) && Create(fs, path).0.Some?
    ensures var (i, gs) := Create(fs, path);
            Lookup(gs, FullPath(path)) == i.value <==> Lookup(fs, FullPath(path)) >= i.value
  {
    var i, gs := Create(fs, path).0.value, Create(fs, path).1;
    var p, full := Lookup(gs, FullPath(path)), FullPath(path);
    assert gs[i].used && gs[i].path == full;
    assert forall j :: 0 <= j < i ==> gs[j] == fs[j];
  }

  /** Then unlinking it again restores every lookup and every listing. */
  lemma {:induction false} UnlinkUndoesCreate(fs: seq<File>, path: seq<byte>, other: seq<byte>)
    requires Shaped(fs) && Create(fs, path).0.Some?
    requires Lookup(fs, FullPath(path)) >= Create(fs, path).0.value
    ensures var (ok, hs) := Unlink(Create(fs, path).1, FullPath(path));
            && ok && |hs| == |fs|
            && Lookup(hs, other) == Lookup(fs, other)
            && Listing(hs, other) == Listing(fs, other)
  {
    CreatedIsFound(fs, path);
    var i, gs := Create(fs, path).0.value, Create(fs, path).1;
    var hs := Unlink(gs, FullPath(path)).1;
    assert forall j :: 0 <= j < |fs| && j != i ==> hs[j] == fs[j];
    ChildrenSame(fs, hs, other, 0, |fs|);
    var a, b := Lookup(fs, other), Lookup(hs, other);
    assert a < |fs| ==> a != i && hs[a] == fs[a];
    assert b < |fs| ==> b != i && hs[b] == fs[b];
  }
}
