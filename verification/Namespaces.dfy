/** Per-process namespaces: the linked list of bindings of namespace.c and the two resolvers of vfs.c. */
module Namespaces {
  import opened Bytes
  import CStrings
  import Tokens

  datatype Binding = Binding(oldPath: seq<byte>, newPath: seq<byte>, flags: int)

  // ---- bindings as a list, newest first ----

  /** First binding whose old path is a prefix of `path`, or the length of the list. */
  function FirstOld(bs: seq<Binding>, path: seq<byte>): (k: nat)
    ensures k <= |bs|
    ensures k < |bs| ==> bs[k].oldPath <= path
    ensures forall i :: 0 <= i < k ==> !(bs[i].oldPath <= path)
  {
    if bs == [] || bs[0].oldPath <= path then 0 else 1 + FirstOld(bs[1..], path)
  }

  /** First binding whose new path is a prefix of `path`. */
  function FirstNew(bs: seq<Binding>, path: seq<byte>): (k: nat)
    ensures k <= |bs|
    ensures k < |bs| ==> bs[k].newPath <= path
    ensures forall i :: 0 <= i < k ==> !(bs[i].newPath <= path)
  {
    if bs == [] || bs[0].newPath <= path then 0 else 1 + FirstNew(bs[1..], path)
  }

  /** First binding at exactly this new path. */
  function FirstAt(bs: seq<Binding>, path: seq<byte>): (k: nat)
    ensures k <= |bs|
    ensures k < |bs| ==> bs[k].newPath == path
    ensures forall i :: 0 <= i < k ==> bs[i].newPath != path
  {
    if bs == [] || bs[0].newPath == path then 0 else 1 + FirstAt(bs[1..], path)
  }

  /** resolve_path: old to new, with no regard to component boundaries. */
  function Resolve(bs: seq<Binding>, path: seq<byte>): seq<byte>
  {
    var k := FirstOld(bs, path);
    if k == |bs| then path else bs[k].newPath + path[|bs[k].oldPath|..]
  }

  predicate NoSlashNeeded(oldPath: seq<byte>, rest: seq<byte>)
  {
    rest == [] || rest[0] == SLASH || (oldPath != [] && oldPath[|oldPath| - 1] == SLASH)
  }

  /** A rest that does not continue with a slash gets one, unless the old path ends in one. */
  function Rejoin(oldPath: seq<byte>, rest: seq<byte>): seq<byte>
  {
    if NoSlashNeeded(oldPath, rest) then oldPath + rest else oldPath + [SLASH] + rest
  }

  /** resolve_namespace_path: new to old. */
  function ResolveBack(bs: seq<Binding>, path: seq<byte>): seq<byte>
  {
    var k := FirstNew(bs, path);
    if k == |bs| then path else Rejoin(bs[k].oldPath, path[|bs[k].newPath|..])
  }

  function RemoveAt<T>(c: seq<T>, k: nat): (d: seq<T>)
    requires k < |c|
    ensures |d| == |c| - 1
    ensures forall i :: 0 <= i < k ==> d[i] == c[i]
    ensures forall i :: k <= i < |d| ==> d[i] == c[i + 1]
  {
    c[..k] + c[k + 1..]
  }

  /** The buffer of resolve_namespace_path holds the result, and the code does not look at the byte in front of an
      empty old path. */
  predicate FitsBack(bs: seq<Binding>, path: seq<byte>)
  {
    var k := FirstNew(bs, path);
    k < |bs| ==>
      && |ResolveBack(bs, path)| < VFS_MAX_PATH
      && (bs[k].oldPath != [] || NoSlashNeeded([], path[|bs[k].newPath|..]))
  }

  /** `after` is `bs` without its first binding at the path, which is at `k`. */
  ghost predicate TakenOut(bs: seq<Binding>, k: nat, path: seq<byte>, after: seq<Binding>)
  {
    && k < |bs| && bs[k].newPath == path && (forall i :: 0 <= i < k ==> bs[i].newPath != path)
    && after == bs[..k] + bs[k + 1..]
  }

  /** unbind: the first binding at `path` goes. */
  function Removed(bs: seq<Binding>, path: seq<byte>): (bool, seq<Binding>)
  {
    var k := FirstAt(bs, path);
    if k == |bs| then (false, bs) else (true, RemoveAt(bs, k))
  }

  /** unbind takes out the first binding at the path, wherever it is in the list, and nothing else. */
  lemma {:induction false} UnbindRemoves(front: seq<Binding>, b: Binding, back: seq<Binding>)
    requires forall i :: 0 <= i < |front| ==> front[i].newPath != b.newPath
    ensures Removed(front + [b] + back, b.newPath) == (true, front + back)
  {
    var bs, k := front + [b] + back, FirstAt(front + [b] + back, b.newPath);
    assert bs[|front|] == b && forall i :: 0 <= i < |front| ==> bs[i] == front[i];
    assert k == |front|;
    assert RemoveAt(bs, k) == front + back;
  }

  /** Without a binding at the path it fails. */
  lemma {:induction false} UnbindFails(bs: seq<Binding>, path: seq<byte>)
    requires forall i :: 0 <= i < |bs| ==> bs[i].newPath != path
    ensures Removed(bs, path) == (false, bs)
  {
    assert FirstAt(bs, path) == |bs|;
  }

  /** The first binding whose old path is a prefix maps the path; without one the path stays. */
  lemma {:induction false} ResolveMaps(front: seq<Binding>, b: Binding, back: seq<Binding>, rest: seq<byte>)
    requires forall i :: 0 <= i < |front| ==> !(front[i].oldPath <= b.oldPath + rest)
    ensures Resolve(front + [b] + back, b.oldPath + rest) == b.newPath + rest
    ensures Resolve(front, b.oldPath + rest) == b.oldPath + rest
  {
    var bs, path := front + [b] + back, b.oldPath + rest;
    var k := FirstOld(bs, path);
    assert FirstOld(front, path) == |front|;
    assert bs[|front|] == b && b.oldPath <= path;
    assert forall i :: 0 <= i < |front| ==> bs[i] == front[i];
    assert k == |front|;
    assert path[|b.oldPath|..] == rest;
  }

  /** The first binding whose new path is a prefix maps the path back: the old path in front, the rest behind, at
      most one byte between them, and together the components of both. */
  lemma {:induction false} ResolveBackMaps(front: seq<Binding>, b: Binding, back: seq<Binding>, rest: seq<byte>)
    requires forall i :: 0 <= i < |front| ==> !(front[i].newPath <= b.newPath + rest)
    ensures ResolveBack(front, b.newPath + rest) == b.newPath + rest
    ensures var r := ResolveBack(front + [b] + back, b.newPath + rest);
            && b.oldPath <= r && |r| <= |b.oldPath| + 1 + |rest| && |rest| <= |r| && r[|r| - |rest|..] == rest
            && Tokens.Split(r, SLASHES) == Tokens.Split(b.oldPath, SLASHES) + Tokens.Split(rest, SLASHES)
            && (rest == [] || rest[0] == SLASH ==> r == b.oldPath + rest)
  {
    var bs, path := front + [b] + back, b.newPath + rest;
    var k := FirstNew(bs, path);
    assert FirstNew(front, path) == |front|;
    assert bs[|front|] == b && b.newPath <= path;
    assert forall i :: 0 <= i < |front| ==> bs[i] == front[i];
    assert k == |front|;
    assert path[|b.newPath|..] == rest;
    RejoinComponents(b.oldPath, rest);
  }

  lemma {:induction false} RejoinComponents(oldPath: seq<byte>, rest: seq<byte>)
    ensures var r := Rejoin(oldPath, rest);
            Tokens.Split(r, SLASHES) == Tokens.Split(oldPath, SLASHES) + Tokens.Split(rest, SLASHES)
  {
    hide Tokens.SplitFrom;
    if rest == [] {
      assert oldPath + rest == oldPath;
      Tokens.SplitEmpty(SLASHES);
    } else if rest[0] == SLASH {
      Tokens.SplitJoined(oldPath, SLASHES, rest[1..]);
      assert oldPath + [SLASH] + rest[1..] == oldPath + rest && [SLASH] + rest[1..] == rest;
      Tokens.SplitLeading(SLASH, rest[1..], SLASHES);
    } else if oldPath != [] && oldPath[|oldPath| - 1] == SLASH {
      var front := oldPath[..|oldPath| - 1];
      assert oldPath == front + [SLASH];
      Tokens.SplitJoined(front, SLASHES, rest);
      Tokens.SplitJoined(front, SLASHES, []);
      assert front + [SLASH] + [] == oldPath;
      Tokens.SplitEmpty(SLASHES);
    } else {
      Tokens.SplitJoined(oldPath, SLASHES, rest);
    }
  }

  /** bind followed by unbind of the same new path restores the resolution of every path, in both
      directions. */
  lemma {:induction false} UnbindUndoesBind(bs: seq<Binding>, b: Binding, path: seq<byte>)
    ensures var (ok, bs') := Removed([b] + bs, b.newPath);
            ok && Resolve(bs', path) == Resolve(bs, path) && ResolveBack(bs', path) == ResolveBack(bs, path)
  {
    assert ([b] + bs)[0] == b && ([b] + bs)[1..] == bs;
    assert RemoveAt([b] + bs, 0) == bs;
  }

  /** The two resolvers select the same binding `k` for the path and for its image: then the way back leads
      to the path again exactly when no slash has to be put in. */
  lemma {:induction false} ResolveBackUndoes(bs: seq<Binding>, k: nat, rest: seq<byte>)
    requires k < |bs| && FirstOld(bs, bs[k].oldPath + rest) == k && FirstNew(bs, bs[k].newPath + rest) == k
    ensures var path := bs[k].oldPath + rest;
            && Resolve(bs, path) == bs[k].newPath + rest
            && (ResolveBack(bs, Resolve(bs, path)) == path <==> NoSlashNeeded(bs[k].oldPath, rest))
  {
    var path := bs[k].oldPath + rest;
    assert path[|bs[k].oldPath|..] == rest;
    var image := bs[k].newPath + rest;
    assert image[|bs[k].newPath|..] == rest;
    assert Resolve(bs, path) == image;
    assert |bs[k].oldPath + [SLASH] + rest| == |path| + 1;
  }

  /** With a single binding, exactly when resolving and resolving back is the identity on a path. */
  lemma {:induction false} SingleBinding(b: Binding, path: seq<byte>)
    ensures ResolveBack([b], Resolve([b], path)) == path <==>
            if b.oldPath <= path
            then NoSlashNeeded(b.oldPath, path[|b.oldPath|..])
            else !(b.newPath <= path)
  {
    var k, j := FirstOld([b], path), FirstNew([b], path);
    if b.oldPath <= path {
      var rest := path[|b.oldPath|..];
      assert path == b.oldPath + rest && b.newPath <= b.newPath + rest;
      ResolveBackUndoes([b], 0, rest);
    } else if b.newPath <= path {
      assert b.oldPath <= Rejoin(b.oldPath, path[|b.newPath|..]);
    }
  }

  /** Its case of a path equal to the old path or continuing it with a slash. */
  lemma {:induction false} SingleBindingBelow(b: Binding, rest: seq<byte>)
    requires rest == [] || rest[0] == SLASH
    ensures ResolveBack([b], Resolve([b], b.oldPath + rest)) == b.oldPath + rest
  {
    assert (b.oldPath + rest)[|b.oldPath|..] == rest;
    SingleBinding(b, b.oldPath + rest);
  }

  // ---- the linked list ----

  /** struct namespace; the strings are memory with a terminator. */
  class Node {
    const oldPath: CString
    const newPath: CString
    const flags: int
    var next: Node?

    constructor (oldPath: CString, newPath: CString, flags: int)
      ensures this.oldPath == oldPath && this.newPath == newPath && this.flags == flags && next == null
    {
      this.oldPath, this.newPath, this.flags, next := oldPath, newPath, flags, null;
    }

    function Value(): Binding
    {
      Binding(Text(oldPath), Text(newPath), flags)
    }
  }

  ghost function Bindings(c: seq<Node>): (bs: seq<Binding>)
    ensures |bs| == |c|
    ensures forall i :: 0 <= i < |c| ==> bs[i] == c[i].Value()
  {
    seq(|c|, i requires 0 <= i < |c| => c[i].Value())
  }

  lemma {:induction false} BindingsWithout(c: seq<Node>, k: nat)
    requires k < |c|
    ensures Bindings(RemoveAt(c, k)) == RemoveAt(Bindings(c), k)
  {
  }

  class Namespace {
    var mounts: Node?
    ghost var chain: seq<Node>

    ghost function NodeAt(k: nat): Node?
      reads this
    {
      if k < |chain| then chain[k] else null
    }

    ghost predicate Valid()
      reads this, chain
    {
      && mounts == NodeAt(0)
      && (forall i, j :: 0 <= i < j < |chain| ==> chain[i] != chain[j])
      && (forall i :: 0 <= i < |chain| ==> chain[i].next == NodeAt(i + 1))
    }

    ghost function View(): (bs: seq<Binding>)
      reads this
      ensures |bs| == |chain|
    {
      Bindings(chain)
    }

    /** init_process_namespace */
    constructor ()
      ensures Valid() && View() == [] && chain == []
    {
      mounts, chain := null, [];
    }

    /** create_namespace: the strings are copied with their terminators. */
    method CreateNamespace(old_: CString, new_: CString, flags: int) returns (ns: Node)
      ensures fresh(ns) && ns.next == null && ns.Value() == Binding(Text(old_), Text(new_), flags)
    {
      var oldLen := CStrings.Strlen(old_);
      var newLen := CStrings.Strlen(new_);
      TextPrefix(old_, oldLen + 1);
      TextPrefix(new_, newLen + 1);
      ns := new Node(old_[..oldLen + 1], new_[..newLen + 1], flags);
    }

    /** A node at the head of the list. */
    method Prepend(ns: Node)
      requires Valid() && ns !in chain && ns.next == null
      modifies this, ns`next
      ensures Valid() && chain == [ns] + old(chain) && View() == [ns.Value()] + old(View())
    {
      hide Text;
      ns.next := mounts;
      mounts := ns;
      chain := [ns] + chain;
      assert View() == [ns.Value()] + old(View());
    }

    /** False for -1. `lists` says which resolved paths the file systems can list, as vfs_read_dir asks them. */
    method Bind(old_: CString, new_: CString, flags: int, lists: seq<byte> -> bool) returns (ok: bool)
      requires Valid() && FitsBack(View(), Text(old_)) && FitsBack(View(), Text(new_))
      modifies this
      ensures Valid()
      ensures ok == (lists(ResolveBack(old(View()), Text(old_))) && lists(ResolveBack(old(View()), Text(new_))))
      ensures View() == (if ok then [Binding(Text(old_), Text(new_), flags)] else []) + old(View())
      ensures forall n :: n in chain ==> n in old(chain) || fresh(n)
    {
      hide Text, Bindings, ResolveBack, FitsBack;
      var source := ResolveNamespacePath(old_);
      if !lists(Text(source)) {
        return false;
      }
      var target := ResolveNamespacePath(new_);
      if !lists(Text(target)) {
        return false;
      }
      var ns := CreateNamespace(old_, new_, flags);
      StillValid(ns);
      Prepend(ns);
      return true;
    }

    twostate lemma StillValid(new ns: Node)
      requires old(Valid()) && unchanged(this) && unchanged(chain) && fresh(ns)
      ensures Valid() && View() == old(View()) && ns !in chain
    {
    }

    /** The walk of unbind: the first node at `path` and the one in front of it. */
    method FindEntry(path: CString) returns (entry: Node?, prev: Node?, ghost k: nat)
      requires Valid()
      ensures k == FirstAt(View(), Text(path)) && entry == NodeAt(FirstAt(View(), Text(path)))
      ensures prev == if k == 0 then null else chain[k - 1]
    {
      hide TextLen, FirstAt;
      entry, prev, k := mounts, null, 0;
      while entry != null
        invariant 0 <= k <= |chain| && entry == NodeAt(k) && prev == (if k == 0 then null else chain[k - 1])
        invariant forall i :: 0 <= i < k ==> View()[i].newPath != Text(path)
        decreases |chain| - k
      {
        assert View()[k] == entry.Value();
        var r := CStrings.Strcmp(entry.newPath, path);
        if r == 0 {
          return;
        }
        prev, entry, k := entry, entry.next, k + 1;
      }
    }

    /** False for -1. The node is unlinked; the others stay where they are. */
    method Unbind(path: CString) returns (ok: bool)
      requires Valid()
      modifies this, chain
      ensures Valid() && (ok, View()) == Removed(old(View()), Text(path))
      ensures !ok ==> View() == old(View()) && forall i :: 0 <= i < |View()| ==> View()[i].newPath != Text(path)
      ensures ok ==> exists k :: TakenOut(old(View()), k, Text(path), View())
      ensures forall n :: n in chain ==> n in old(chain)
    {
      hide TextLen, FirstAt;
      var entry, prev, k := FindEntry(path);
      if entry == null {
        return false;
      }
      assert TakenOut(View(), k, Text(path), RemoveAt(View(), k));
      Unlink(entry, prev, k);
      return true;
    }

    /** Takes node `k` out of the list. */
    method Unlink(entry: Node, prev: Node?, ghost k: nat)
      requires Valid() && k < |chain| && entry == chain[k] && prev == (if k == 0 then null else chain[k - 1])
      modifies this, if prev == null then {} else {prev}
      ensures Valid() && chain == RemoveAt(old(chain), k) && View() == RemoveAt(old(View()), k)
    {
      hide Text, Bindings, RemoveAt;
      BindingsWithout(chain, k);
      if prev != null {
        prev.next := entry.next;
      } else {
        mounts := entry.next;
      }
      chain := RemoveAt(chain, k);
    }

    /** The walk of resolve_path. */
    method FindOld(path: CString) returns (ns: Node?, ghost k: nat)
      requires Valid()
      ensures k == FirstOld(View(), Text(path)) && ns == NodeAt(FirstOld(View(), Text(path)))
    {
      hide Take, Text, FirstOld, CStrings.TextLess, Bindings;
      ns, k := mounts, 0;
      while ns != null
        invariant 0 <= k <= |chain| && ns == NodeAt(k)
        invariant forall i :: 0 <= i < k ==> !(View()[i].oldPath <= Text(path))
        decreases |chain| - k
      {
        assert View()[k] == ns.Value();
        var n := CStrings.Strlen(ns.oldPath);
        PrefixTaken(Text(path), Text(ns.oldPath));
        var r := CStrings.Strncmp(path, ns.oldPath, n);
        if r == 0 {
          return;
        }
        ns, k := ns.next, k + 1;
      }
    }

    /** The walk of resolve_namespace_path. */
    method FindNew(path: CString) returns (ns: Node?, ghost k: nat)
      requires Valid()
      ensures k == FirstNew(View(), Text(path)) && ns == NodeAt(FirstNew(View(), Text(path)))
    {
      hide Take, Text, FirstNew, CStrings.TextLess, Bindings;
      ns, k := mounts, 0;
      while ns != null
        invariant 0 <= k <= |chain| && ns == NodeAt(k)
        invariant forall i :: 0 <= i < k ==> !(View()[i].newPath <= Text(path))
        decreases |chain| - k
      {
        assert View()[k] == ns.Value();
        var n := CStrings.Strlen(ns.newPath);
        PrefixTaken(Text(path), Text(ns.newPath));
        var r := CStrings.Strncmp(path, ns.newPath, n);
        if r == 0 {
          return;
        }
        ns, k := ns.next, k + 1;
      }
    }

    /** resolve_path into the caller's buffer. */
    method ResolvePath(path: CString, resolved: array<byte>)
      requires Valid() && |Resolve(View(), Text(path))| < resolved.Length
      modifies resolved
      ensures 0 in resolved[..] && Text(resolved[..]) == Resolve(View(), Text(path))
    {
      hide TextLen, FirstOld;
      var ns, k := FindOld(path);
      if ns == null {
        CStrings.Strcpy(resolved, 0, path);
        return;
      }
      var n := CStrings.Strlen(ns.oldPath);
      TextDrop(path, n);
      CStrings.Strcpy(resolved, 0, ns.newPath);
      CStrings.Strcat(resolved, path[n..]);
    }

    /** resolve_namespace_path: `path` itself when no binding applies, a new buffer of VFS_MAX_PATH bytes otherwise. */
    method ResolveNamespacePath(path: CString) returns (resolved: CString)
      requires Valid() && FitsBack(View(), Text(path))
      ensures Text(resolved) == ResolveBack(View(), Text(path))
    {
      hide TextLen, FirstNew;
      var ns, k := FindNew(path);
      if ns == null {
        return path;
      }
      assert View()[k] == ns.Value();
      resolved := BuildOld(ns.oldPath, ns.newPath, path);
    }
  }

  /** The buffer resolve_namespace_path builds. */
  method BuildOld(oldPath: CString, newPath: CString, path: CString) returns (resolved: CString)
    requires Text(newPath) <= Text(path)
    requires var rest := Text(path)[|Text(newPath)|..];
             && |Rejoin(Text(oldPath), rest)| < VFS_MAX_PATH
             && (Text(oldPath) != [] || NoSlashNeeded([], rest))
    ensures Text(resolved) == Rejoin(Text(oldPath), Text(path)[|Text(newPath)|..])
  {
    hide TextLen;
    var newLen := CStrings.Strlen(newPath);
    TextDrop(path, newLen);
    var buffer := new byte[VFS_MAX_PATH];
    CStrings.Strcpy(buffer, 0, oldPath);
    AppendRest(buffer, path[newLen..]);
    resolved := buffer[..];
  }

  /** strcat of what follows the prefix, behind a slash where one is missing. */
  method AppendRest(buffer: array<byte>, rest: CString)
    requires 0 in buffer[..] && |Rejoin(Text(buffer[..]), Text(rest))| < buffer.Length
    requires Text(buffer[..]) != [] || NoSlashNeeded([], Text(rest))
    modifies buffer
    ensures 0 in buffer[..] && Text(buffer[..]) == Rejoin(Text(old(buffer[..])), Text(rest))
  {
    hide TextLen;
    if rest[0] != 0 {
      var last := CStrings.Strlen(buffer[..]);
      if rest[0] != SLASH && buffer[last - 1] != SLASH {
        StoredText([SLASH], []);
        assert [SLASH] + [0] + [] == [SLASH, 0];
        CStrings.Strcat(buffer, [SLASH, 0]);
      }
      CStrings.Strcat(buffer, rest);
    }
  }
}
