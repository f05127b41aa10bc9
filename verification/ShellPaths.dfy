/** The path part of shell.c: get_parent_dir, normalize_path and cmd_cd. */
module ShellPaths {
  import opened Bytes
  import CStrings
  import opened Tokens

  const ROOT: seq<byte> := [SLASH]
  const DOTS: seq<byte> := [DOT, DOT]

  // ---- paths as component stacks ----

  /** A component that names something: neither ".", nor "..", nor cut by a slash. */
  predicate Name(w: seq<byte>)
  {
    w != [] && SLASH !in w && 0 !in w && w != [DOT] && w != DOTS
  }

  function Join(names: seq<seq<byte>>): seq<byte>
  {
    if names == [] then [] else Join(names[..|names| - 1]) + [SLASH] + names[|names| - 1]
  }

  /** The absolute path that spells the stack `names`, root first. */
  function Render(names: seq<seq<byte>>): seq<byte>
  {
    if names == [] then ROOT else Join(names)
  }

  predicate AllNames(names: seq<seq<byte>>)
  {
    forall w :: w in names ==> Name(w)
  }

  /** What the tokenizer can hand to the loop. */
  predicate Word(w: seq<byte>)
  {
    w != [] && SLASH !in w && 0 !in w
  }

  predicate AllWords(words: seq<seq<byte>>)
  {
    forall w :: w in words ==> Word(w)
  }

  predicate OnlyDots(words: seq<seq<byte>>)
  {
    forall w :: w in words ==> w == [DOT]
  }

  /** One component moves the stack: "." stays, ".." pops and stays at the root, a name is pushed. */
  function Step(names: seq<seq<byte>>, w: seq<byte>): seq<seq<byte>>
  {
    if w == [DOT] then names
    else if w == DOTS then (if names == [] then [] else names[..|names| - 1])
    else names + [w]
  }

  function Steps(names: seq<seq<byte>>, words: seq<seq<byte>>): seq<seq<byte>>
    decreases |words|
  {
    if words == [] then names else Steps(Step(names, words[0]), words[1..])
  }

  /** Names are pushed in order. */
  lemma {:induction false} StepsPush(names: seq<seq<byte>>, words: seq<seq<byte>>)
    requires AllNames(words)
    ensures Steps(names, words) == names + words
    decreases |words|
  {
    if words != [] {
      assert words[0] in words;
      assert forall w :: w in words[1..] ==> w in words;
      StepsPush(names + [words[0]], words[1..]);
    }
  }

  /** ".." takes back one push and stays at the root, "." does nothing. */
  lemma {:induction false} StepsDots(names: seq<seq<byte>>, w: seq<byte>)
    requires Name(w)
    ensures Steps(names + [w], [DOTS]) == names && Steps([], [DOTS]) == [] && Steps(names, [[DOT]]) == names
  {
    assert (names + [w])[..|names|] == names;
  }

  lemma {:induction false} StepsCompose(names: seq<seq<byte>>, words: seq<seq<byte>>, more: seq<seq<byte>>)
    ensures Steps(names, words + more) == Steps(Steps(names, words), more)
    decreases |words|
  {
    if words == [] {
      assert [] + more == more;
    } else {
      assert (words + more)[0] == words[0] && (words + more)[1..] == words[1..] + more;
      StepsCompose(Step(names, words[0]), words[1..], more);
    }
  }

  // ---- what the C code computes on strings ----

  /** Without one trailing slash. */
  function Untrailed(path: seq<byte>): seq<byte>
  {
    if |path| > 1 && path[|path| - 1] == SLASH then path[..|path| - 1] else path
  }

  /** get_parent_dir: drop one trailing slash, then everything from the last slash on. */
  function Parent(path: seq<byte>): (r: seq<byte>)
    ensures r != []
    ensures 0 !in path ==> 0 !in r
    ensures |r| <= |path| || r == ROOT
  {
    if path == ROOT then path else
      var q := Untrailed(path);
      match CStrings.LastIndex(q, SLASH)
      case None => if q == [] then ROOT else q
      case Some(k) => if k == 0 then q[..1] else q[..k]
  }

  function Enter(path: seq<byte>, w: seq<byte>): seq<byte>
  {
    if w == [DOT] then path
    else if w == DOTS then Parent(path)
    else if path == ROOT then path + w
    else path + [SLASH] + w
  }

  function EnterAll(path: seq<byte>, words: seq<seq<byte>>): seq<byte>
    decreases |words|
  {
    if words == [] then path else EnterAll(Enter(path, words[0]), words[1..])
  }

  /** The path the general loop of cmd_cd builds for a non-empty argument. */
  function CdTarget(cwd: seq<byte>, arg: seq<byte>): seq<byte>
    requires arg != []
  {
    if arg[0] == SLASH then EnterAll(ROOT, Split(arg[1..], SLASHES))
    else EnterAll(cwd, Split(arg, SLASHES))
  }

  /** The current directory after cmd_cd; `opens` says which paths vfs_open accepts. */
  function CdResult(cwd: seq<byte>, arg: Option<seq<byte>>, opens: seq<byte> -> bool): seq<byte>
  {
    if arg == None || arg.value == [] then ROOT
    else if arg.value == [DOT] then cwd
    else if arg.value == DOTS then Parent(cwd)
    else var target := CdTarget(cwd, arg.value); if opens(target) then target else cwd
  }

  // ---- the string computation follows the stack ----

  lemma {:induction false} LastSlash(a: seq<byte>, w: seq<byte>)
    requires SLASH !in w
    ensures CStrings.LastIndex(a + [SLASH] + w, SLASH) == Some(|a|)
  {
    var p := a + [SLASH] + w;
    forall j | |a| < j < |p|
      ensures p[j] != SLASH
    {
      assert p[j] == w[j - |a| - 1];
    }
    CStrings.LastIndexIs(p, SLASH, |a|);
  }

  /** get_parent_dir undoes one push. */
  lemma {:induction false} ParentUndoesPush(names: seq<seq<byte>>, w: seq<byte>)
    requires Name(w)
    ensures Parent(Render(names + [w])) == Render(names)
  {
    assert (names + [w])[..|names|] == names;
    var a := Join(names);
    var p := a + [SLASH] + w;
    assert Render(names + [w]) == p;
    assert p[|p| - 1] == w[|w| - 1];
    LastSlash(a, w);
    assert p[..|a|] == a;
    assert p[..1] == ROOT || a != [];
    JoinNonEmpty(names);
  }

  lemma {:induction false} JoinNonEmpty(names: seq<seq<byte>>)
    ensures Join(names) == [] <==> names == []
  {
  }

  lemma {:induction false} JoinNotRoot(names: seq<seq<byte>>)
    requires AllNames(names) && names != []
    ensures Join(names) != ROOT
  {
    assert Name(names[|names| - 1]);
  }

  lemma {:induction false} EnterRefinesStep(names: seq<seq<byte>>, w: seq<byte>)
    requires AllNames(names) && Word(w)
    ensures AllNames(Step(names, w))
    ensures Enter(Render(names), w) == Render(Step(names, w))
  {
    if w == DOTS {
      if names != [] {
        var front, last := names[..|names| - 1], names[|names| - 1];
        assert names == front + [last];
        ParentUndoesPush(front, last);
      }
    } else if w != [DOT] {
      assert (names + [w])[..|names|] == names;
      if names != [] {
        JoinNotRoot(names);
      } else {
        assert Join([w]) == ROOT + w;
      }
    }
  }

  lemma {:induction false} EnterAllRefinesSteps(names: seq<seq<byte>>, words: seq<seq<byte>>)
    requires AllNames(names) && AllWords(words)
    ensures AllNames(Steps(names, words))
    ensures EnterAll(Render(names), words) == Render(Steps(names, words))
    decreases |words|
  {
    if words != [] {
      assert words[0] in words;
      EnterRefinesStep(names, words[0]);
      EnterAllRefinesSteps(Step(names, words[0]), words[1..]);
    }
  }

  /** From the empty cwd a process starts with, the loop behaves as from the root, unless no component
      but "." occurs: then the path stays empty. */
  lemma {:induction false} EnterAllFromEmpty(words: seq<seq<byte>>)
    requires AllWords(words)
    ensures EnterAll([], words) ==
            if OnlyDots(words) then [] else Render(Steps([], words))
    decreases |words|
  {
    if words != [] {
      var w, rest := words[0], words[1..];
      assert w in words;
      assert forall v :: v in words ==> v == w || v in rest;
      assert forall v :: v in rest ==> v in words;
      if w == [DOT] {
        EnterAllFromEmpty(rest);
      } else {
        EnterRefinesStep([], w);
        assert Enter([], w) == Render(Step([], w)) by {
          if w != DOTS {
            assert Enter([], w) == [] + [SLASH] + w == ROOT + w;
          }
        }
        EnterAllRefinesSteps(Step([], w), rest);
      }
    }
  }

  // ---- splitting a rendered path gives the stack back ----

  /** Render and Split are inverse: the current directory is its component stack. */
  lemma {:induction false} SplitRender(names: seq<seq<byte>>)
    requires AllNames(names)
    ensures Split(Render(names), SLASHES) == names
    decreases |names|
  {
    if names != [] {
      var front, last := names[..|names| - 1], names[|names| - 1];
      assert Name(last);
      SplitRender(front);
      SplitJoined(Join(front), SLASHES, last);
      SplitOne(last, SLASHES);
      if front == [] {
        assert Split([], SLASHES) == [];
      }
    } else {
      assert TokenStart(ROOT, SLASHES, 1) == 1;
    }
  }

  // ---- normalize_path ----

  predicate DoubleSlash(t: seq<byte>, k: nat)
  {
    k + 1 < |t| && t[k] == SLASH && t[k + 1] == SLASH
  }

  function CollapseFrom(t: seq<byte>, p: nat): seq<byte>
    requires p <= |t|
    decreases |t| - p
  {
    if p == |t| then []
    else if DoubleSlash(t, p) then CollapseFrom(t, p + 1)
    else [t[p]] + CollapseFrom(t, p + 1)
  }

  /** The first slash is copied before the loop starts, so a path may keep two leading slashes. */
  function Normalize(t: seq<byte>): seq<byte>
  {
    if t != [] && t[0] == SLASH then ROOT + CollapseFrom(t, 1) else CollapseFrom(t, 0)
  }

  lemma {:induction false} CollapseClean(t: seq<byte>, p: nat)
    requires p <= |t|
    ensures var c := CollapseFrom(t, p);
            && (c == [] <==> p == |t|)
            && (c != [] ==> c[0] == t[p])
            && forall k: nat :: !DoubleSlash(c, k)
    decreases |t| - p
  {
    if p < |t| {
      CollapseClean(t, p + 1);
      var c, rest := CollapseFrom(t, p), CollapseFrom(t, p + 1);
      if c != rest {
        forall k: nat
          ensures !DoubleSlash(c, k)
        {
          if k > 0 {
            assert !DoubleSlash(rest, k - 1);
          }
        }
      }
    }
  }

  lemma {:induction false} CollapseFixes(t: seq<byte>, p: nat)
    requires p <= |t| && forall k: nat :: p <= k ==> !DoubleSlash(t, k)
    ensures CollapseFrom(t, p) == t[p..]
    decreases |t| - p
  {
    if p < |t| {
      CollapseFixes(t, p + 1);
    }
  }

  /** No "//" survives at index 1 or later, and normalising again changes nothing. */
  lemma {:induction false} NormalizeIdempotent(t: seq<byte>)
    ensures forall k: nat :: k >= 1 ==> !DoubleSlash(Normalize(t), k)
    ensures Normalize(Normalize(t)) == Normalize(t)
  {
    var n := Normalize(t);
    if t != [] && t[0] == SLASH {
      CollapseClean(t, 1);
      var c := CollapseFrom(t, 1);
      forall k: nat | k >= 1
        ensures !DoubleSlash(n, k)
      {
        assert !DoubleSlash(c, k - 1);
      }
      CollapseFixes(n, 1);
    } else {
      CollapseClean(t, 0);
      CollapseFixes(n, 0);
    }
  }

  /** How one more byte in front changes the list of pieces `words`; `joined` when the byte after it
      continues the piece. */
  function Grow(c: byte, joined: bool, words: seq<seq<byte>>): seq<seq<byte>>
  {
    if c == SLASH then words
    else if joined && words != [] then [[c] + words[0]] + words[1..]
    else [[c]] + words
  }

  lemma {:induction false} SplitAtPiece(t: seq<byte>, d: set<byte>, i: nat, j: nat)
    requires i < |t| && t[i] !in d && j == TokenEnd(t, d, i)
    ensures i < j && SplitFrom(t, d, i) == [t[i..j]] + SplitFrom(t, d, j)
  {
    assert TokenStart(t, d, i) == i;
  }

  lemma {:induction false} SplitGrows(t: seq<byte>, p: nat)
    requires p < |t|
    ensures SplitFrom(t, SLASHES, p) ==
            Grow(t[p], p + 1 < |t| && t[p + 1] != SLASH, SplitFrom(t, SLASHES, p + 1))
  {
    hide SplitFrom;
    var j := TokenEnd(t, SLASHES, p + 1);
    if t[p] == SLASH {
      SplitPastDelimiter(t, SLASHES, p);
    } else if p + 1 < |t| && t[p + 1] != SLASH {
      SplitAtPiece(t, SLASHES, p, j);
      SplitAtPiece(t, SLASHES, p + 1, j);
      assert [t[p]] + t[p + 1..j] == t[p..j];
    } else {
      SplitAtPiece(t, SLASHES, p, p + 1);
      var w := t[p..p + 1];
      assert |w| == 1 && w[0] == t[p];
      assert w == [t[p]];
    }
  }

  lemma {:induction false} SplitGrowsInFront(c: byte, u: seq<byte>)
    ensures Split([c] + u, SLASHES) == Grow(c, u != [] && u[0] != SLASH, Split(u, SLASHES))
  {
    hide SplitFrom;
    SplitGrows([c] + u, 0);
    SplitShift(c, u, SLASHES, 0);
  }

  lemma {:induction false} CollapseKeepsPieces(t: seq<byte>, p: nat)
    requires p <= |t|
    ensures Split(CollapseFrom(t, p), SLASHES) == SplitFrom(t, SLASHES, p)
    decreases |t| - p
  {
    hide Grow;
    if p < |t| {
      CollapseKeepsPieces(t, p + 1);
      SplitGrows(t, p);
      if !DoubleSlash(t, p) {
        var rest := CollapseFrom(t, p + 1);
        CollapseClean(t, p + 1);
        SplitGrowsInFront(t[p], rest);
      }
    }
  }

  /** Normalising keeps the first character, a second leading slash, and the last character. */
  lemma {:induction false} NormalizeEnds(t: seq<byte>)
    requires t != []
    ensures var n := Normalize(t);
            && n != [] && n[0] == t[0] && n[|n| - 1] == t[|t| - 1]
            && (DoubleSlash(t, 0) ==> DoubleSlash(n, 0))
  {
    if t[0] == SLASH {
      CollapseClean(t, 1);
      CollapseLast(t, 1);
      CollapseSlash(t, 1);
    } else {
      CollapseClean(t, 0);
      CollapseLast(t, 0);
    }
  }

  lemma {:induction false} CollapseLast(t: seq<byte>, p: nat)
    requires p <= |t|
    ensures var c := CollapseFrom(t, p); p < |t| ==> c != [] && c[|c| - 1] == t[|t| - 1]
    decreases |t| - p
  {
    if p < |t| {
      CollapseLast(t, p + 1);
    }
  }

  lemma {:induction false} CollapseSlash(t: seq<byte>, p: nat)
    requires p <= |t|
    ensures p < |t| && t[p] == SLASH ==> CollapseFrom(t, p) != [] && CollapseFrom(t, p)[0] == SLASH
    decreases |t| - p
  {
    CollapseClean(t, p);
  }

  /** Normalising does not change what the path means: the components stay the same. */
  lemma {:induction false} NormalizeKeepsPieces(t: seq<byte>)
    ensures Split(Normalize(t), SLASHES) == Split(t, SLASHES)
  {
    if t != [] && t[0] == SLASH {
      CollapseKeepsPieces(t, 1);
      SplitPastDelimiter(t, SLASHES, 0);
      SplitPastDelimiter(Normalize(t), SLASHES, 0);
      SplitShift(SLASH, CollapseFrom(t, 1), SLASHES, 0);
    } else {
      CollapseKeepsPieces(t, 0);
    }
  }

  // ---- cmd_cd as a whole ----

  lemma {:induction false} SplitWords(arg: seq<byte>)
    requires 0 !in arg
    ensures AllWords(Split(arg, SLASHES))
    ensures arg != [] && arg[0] == SLASH ==> Split(arg[1..], SLASHES) == Split(arg, SLASHES)
  {
    SplitClean(arg, SLASHES, 0);
    if arg != [] && arg[0] == SLASH {
      assert arg == ROOT + arg[1..];
      SplitShift(SLASH, arg[1..], SLASHES, 0);
      SplitPastDelimiter(arg, SLASHES, 0);
    }
  }

  /** cd from a directory spelled by the stack `names` ends in the directory spelled by the stack that
      the components of the argument lead to. */
  lemma {:induction false} CdFollowsStack(names: seq<seq<byte>>, arg: seq<byte>)
    requires AllNames(names) && arg != [] && 0 !in arg
    ensures var target := Steps(if arg[0] == SLASH then [] else names, Split(arg, SLASHES));
            && AllNames(target)
            && CdTarget(Render(names), arg) == Render(target)
            && Split(CdTarget(Render(names), arg), SLASHES) == target
  {
    SplitWords(arg);
    var start: seq<seq<byte>> := if arg[0] == SLASH then [] else names;
    EnterAllRefinesSteps(start, Split(arg, SLASHES));
    SplitRender(Steps(start, Split(arg, SLASHES)));
  }

  /** From the empty cwd of a fresh process the result is the same as from the root, except that a
      relative argument made of "." alone leaves the path empty. */
  lemma {:induction false} CdFromEmpty(arg: seq<byte>)
    requires arg != [] && 0 !in arg
    ensures CdTarget([], arg) == Render(Steps([], Split(arg, SLASHES))) <==>
            arg[0] == SLASH || !OnlyDots(Split(arg, SLASHES))
    ensures arg[0] != SLASH && OnlyDots(Split(arg, SLASHES)) ==> CdTarget([], arg) == []
  {
    SplitWords(arg);
    EnterAllFromEmpty(Split(arg, SLASHES));
    EnterAllRefinesSteps([], Split(arg, SLASHES));
    var names := Steps([], Split(arg, SLASHES));
    JoinNonEmpty(names);
  }

  /** The shortcuts of cmd_cd for "." and ".." compute what the general loop would. */
  lemma {:induction false} ShortcutsAgree(cwd: seq<byte>)
    ensures CdTarget(cwd, [DOT]) == cwd
    ensures CdTarget(cwd, DOTS) == Parent(cwd)
  {
    SplitOne([DOT], SLASHES);
    SplitOne(DOTS, SLASHES);
    assert EnterAll(cwd, [[DOT]]) == EnterAll(Enter(cwd, [DOT]), []);
    assert EnterAll(cwd, [DOTS]) == EnterAll(Enter(cwd, DOTS), []);
  }

  /** get_parent_dir ignores one trailing slash, and leaves a relative path of one component alone. */
  lemma {:induction false} ParentElsewhere(path: seq<byte>)
    requires path != [] && path[|path| - 1] != SLASH
    ensures Parent(path + [SLASH]) == Parent(path)
    ensures SLASH !in path ==> Parent(path) == path
  {
    assert (path + [SLASH])[..|path|] == path;
  }

  /** Everything cmd_cd may do in a directory spelled by the stack `names`: go to the root without an argument,
      follow "." and ".." always, and follow any other argument exactly when vfs_open accepts where it leads. */
  lemma {:induction false} CdExact(names: seq<seq<byte>>, arg: Option<seq<byte>>, opens: seq<byte> -> bool)
    requires AllNames(names) && (arg.Some? ==> 0 !in arg.value)
    ensures var after := CdResult(Render(names), arg, opens);
            if arg == None || arg.value == [] then after == ROOT
            else if arg.value == [DOT] then after == Render(names)
            else
              var stack := Steps(if arg.value[0] == SLASH then [] else names, Split(arg.value, SLASHES));
              && AllNames(stack)
              && (arg.value == DOTS || opens(Render(stack)) ==> after == Render(stack))
              && (arg.value != DOTS && !opens(Render(stack)) ==> after == Render(names))
  {
    hide SplitFrom, Join, EnterAll, Parent;
    if arg.Some? && arg.value != [] && arg.value != [DOT] {
      AbsoluteTarget(Render(names), arg.value);
      CdFollowsStack(names, arg.value);
      ShortcutsAgree(Render(names));
    }
  }

  /** The same from the empty cwd of a fresh process. */
  lemma {:induction false} CdExactEmpty(arg: seq<byte>, opens: seq<byte> -> bool)
    requires arg != [] && arg != [DOT] && 0 !in arg
    ensures var after, stack := CdResult([], Some(arg), opens), Steps([], Split(arg, SLASHES));
            if arg == DOTS then after == ROOT
            else if arg[0] != SLASH && OnlyDots(Split(arg, SLASHES)) then after == []
            else after == if opens(Render(stack)) then Render(stack) else []
  {
    hide SplitFrom, Join, EnterAll, Steps;
    CdFromEmpty(arg);
  }

  /** A `cd` into a subdirectory that opens goes there, and `cd ..` then comes back. */
  lemma {:induction false} CdThereAndBack(names: seq<seq<byte>>, w: seq<byte>, opens: seq<byte> -> bool)
    requires AllNames(names) && Name(w) && opens(Render(names + [w]))
    ensures var there := CdResult(Render(names), Some(w), opens);
            && there == Render(names + [w]) && Split(there, SLASHES) == names + [w]
            && CdResult(there, Some(DOTS), opens) == Render(names)
  {
    hide SplitFrom, Join, EnterAll, Parent, CdResult, Steps;
    CdExact(names, Some(w), opens);
    SplitOne(w, SLASHES);
    StepsPush(names, [w]);
    SplitRender(names + [w]);
    CdExact(names + [w], Some(DOTS), opens);
    SplitOne(DOTS, SLASHES);
    StepsDots(names, w);
  }

  /** The empty string, or the spelling of a stack of names. */
  predicate Canonical(cwd: seq<byte>)
  {
    cwd == [] || (AllNames(Split(cwd, SLASHES)) && Render(Split(cwd, SLASHES)) == cwd)
  }

  lemma {:induction false} RenderedIsCanonical(names: seq<seq<byte>>)
    requires AllNames(names)
    ensures Canonical(Render(names)) && Render(names) != []
  {
    SplitRender(names);
    JoinNonEmpty(names);
  }

  lemma {:induction false} ParentCanonical(cwd: seq<byte>)
    requires Canonical(cwd)
    ensures Canonical(Parent(cwd)) && Parent(cwd) != []
  {
    hide SplitFrom, Join, CStrings.LastIndex;
    var names := Split(cwd, SLASHES);
    if cwd == [] || names == [] {
      RenderedIsCanonical([]);
    } else {
      var front, last := names[..|names| - 1], names[|names| - 1];
      assert names == front + [last];
      ParentUndoesPush(front, last);
      RenderedIsCanonical(front);
    }
  }

  /** cd keeps the current directory canonical, and never makes it empty. */
  lemma {:induction false} CdKeepsCanonical(cwd: seq<byte>, arg: Option<seq<byte>>, opens: seq<byte> -> bool)
    requires Canonical(cwd) && (arg.Some? ==> 0 !in arg.value)
    ensures Canonical(CdResult(cwd, arg, opens))
    ensures CdResult(cwd, arg, opens) == [] ==> cwd == []
  {
    hide SplitFrom, Join, Parent, EnterAll, Steps, CdTarget;
    RenderedIsCanonical([]);
    if arg.Some? && arg.value != [] {
      ParentCanonical(cwd);
      var words := Split(arg.value, SLASHES);
      if arg.value[0] == SLASH {
        AbsoluteTarget(cwd, arg.value);
        CdFollowsStack([], arg.value);
        RenderedIsCanonical(Steps([], words));
      } else if cwd == [] {
        CdFromEmpty(arg.value);
        SplitWords(arg.value);
        EnterAllRefinesSteps([], words);
        RenderedIsCanonical(Steps([], words));
      } else {
        CdFollowsStack(Split(cwd, SLASHES), arg.value);
        RenderedIsCanonical(Steps(Split(cwd, SLASHES), words));
      }
    }
  }

  /** An absolute argument does not look at the current directory. */
  lemma {:induction false} AbsoluteTarget(cwd: seq<byte>, arg: seq<byte>)
    requires arg != []
    ensures arg[0] == SLASH ==> CdTarget(cwd, arg) == CdTarget(Render([]), arg)
  {
  }

  /** One cmd_cd call: the argument, and what vfs_open would accept. */
  type CdCall = (Option<seq<byte>>, seq<byte> -> bool)

  function CdRun(cwd: seq<byte>, calls: seq<CdCall>): seq<byte>
    decreases |calls|
  {
    if calls == [] then cwd else CdRun(CdResult(cwd, calls[0].0, calls[0].1), calls[1..])
  }

  /** Over any run of cmd_cd the current directory of a process stays empty or canonical, and once it is not
      empty it is never empty again. */
  lemma {:induction false} CdRunCanonical(cwd: seq<byte>, calls: seq<CdCall>)
    requires Canonical(cwd)
    requires forall k :: 0 <= k < |calls| && calls[k].0.Some? ==> 0 !in calls[k].0.value
    ensures Canonical(CdRun(cwd, calls))
    ensures CdRun(cwd, calls) == [] ==> cwd == []
    decreases |calls|
  {
    hide Canonical, CdResult;
    if calls != [] {
      CdKeepsCanonical(cwd, calls[0].0, calls[0].1);
      CdRunCanonical(CdResult(cwd, calls[0].0, calls[0].1), calls[1..]);
    }
  }

  /** Bytes strcat may need for `words`, a slash in front of each. */
  function Room(words: seq<seq<byte>>): nat
  {
    if words == [] then 0 else 1 + |words[0]| + Room(words[1..])
  }

  lemma {:induction false} RoomBound(t: seq<byte>, p: nat)
    requires p <= |t|
    ensures Room(SplitFrom(t, SLASHES, p)) <= |t| - p + (if p < |t| && t[p] == SLASH then 0 else 1)
    decreases |t| - p
  {
    var i := TokenStart(t, SLASHES, p);
    if i < |t| {
      var j := TokenEnd(t, SLASHES, i);
      RoomBound(t, j);
      assert i > p || t[p] != SLASH;
    }
  }

  // ---- the C functions ----

  /** CdExact for a path that is canonical or not. */
  lemma {:induction false} CdOf(cwd: seq<byte>, arg: Option<seq<byte>>, opens: seq<byte> -> bool)
    requires arg.Some? ==> 0 !in arg.value
    ensures var names, after := Split(cwd, SLASHES), CdResult(cwd, arg, opens);
            AllNames(names) && cwd == Render(names) ==>
              if arg == None || arg.value == [] then after == ROOT
              else if arg.value == [DOT] then after == Render(names)
              else
                var stack := Steps(if arg.value[0] == SLASH then [] else names, Split(arg.value, SLASHES));
                && (arg.value == DOTS || opens(Render(stack)) ==> after == Render(stack))
                && (arg.value != DOTS && !opens(Render(stack)) ==> after == Render(names))
  {
    hide SplitFrom, Join, CdResult, Steps;
    var names := Split(cwd, SLASHES);
    if AllNames(names) && cwd == Render(names) {
      CdExact(names, arg, opens);
    }
  }

  lemma {:induction false} RootParent()
    ensures Parent(ROOT) == ROOT
  {
  }

  /** The backward scan of get_parent_dir stops at `len`. */
  lemma {:induction false} ParentByScan(path: seq<byte>, len: nat)
    requires path != ROOT && len <= |Untrailed(path)|
    requires forall k :: len <= k < |Untrailed(path)| ==> Untrailed(path)[k] != SLASH
    requires len > 0 ==> Untrailed(path)[len - 1] == SLASH
    ensures var q := Untrailed(path);
            Parent(path) == if len == 0 then (if q == [] then ROOT else q) else if len == 1 then q[..1] else q[..len - 1]
  {
    hide CStrings.LastIndex;
    if len > 0 {
      CStrings.LastIndexIs(Untrailed(path), SLASH, len - 1);
    } else {
      assert CStrings.LastIndex(Untrailed(path), SLASH) == None;
    }
  }

  /** Edits the string at the front of `path` in place. */
  method GetParentDir(path: array<byte>)
    requires 0 in path[..] && path.Length >= 2
    modifies path
    ensures 0 in path[..] && Text(path[..]) == Parent(Text(old(path[..])))
  {
    hide TextLen, Parent;
    ghost var was := Text(path[..]);
    TextHolds(path[..]);
    var r := CStrings.Strcmp(path[..], ROOT + [0]);
    StoredText(ROOT, []);
    assert ROOT + [0] + [] == ROOT + [0];
    if r == 0 {
      RootParent();
      return;
    }
    var len := CStrings.Strlen(path[..]);
    ghost var q := Untrailed(was);
    if len > 1 && path[len - 1] == SLASH {
      len := len - 1;
      path[len] := 0;
    }
    assert Holds(path[..], q, 0) && len == |q|;
    while len > 0 && path[len - 1] != SLASH
      invariant 0 <= len <= |q|
      invariant forall k :: len <= k < |q| ==> q[k] != SLASH
      decreases len
    {
      len := len - 1;
    }
    ParentByScan(was, len);
    if len > 0 {
      if len == 1 {
        path[1] := 0;
      } else {
        path[len - 1] := 0;
      }
    }
    if path[0] == 0 {
      path[0], path[1] := SLASH, 0;
    }
    StringIs(path[..], Parent(was));
  }

  lemma {:induction false} StringIs(m: seq<byte>, t: seq<byte>)
    requires Holds(m, t, 0)
    ensures 0 in m && Text(m) == t
  {
    HoldsText(m, t, 0);
    assert m[0..] == m && t[0..] == t;
  }

  lemma {:induction false} CollapseStep(t: seq<byte>, p: nat)
    requires p <= |t|
    ensures p == |t| ==> CollapseFrom(t, p) == []
    ensures p < |t| ==>
              CollapseFrom(t, p) ==
              (if p + 1 < |t| && t[p] == SLASH && t[p + 1] == SLASH then [] else [t[p]]) + CollapseFrom(t, p + 1)
  {
  }

  lemma {:induction false} NormalizeStart(t: seq<byte>)
    ensures var k := if t != [] && t[0] == SLASH then 1 else 0; t[..k] + CollapseFrom(t, k) == Normalize(t)
  {
    hide CollapseFrom;
    assert [] + CollapseFrom(t, 0) == CollapseFrom(t, 0);
    assert t != [] && t[0] == SLASH ==> t[..1] == ROOT;
  }

  /** Works in place: the write position never overtakes the read position. */
  method NormalizePath(path: array<byte>)
    requires 0 in path[..]
    modifies path
    ensures 0 in path[..] && Text(path[..]) == Normalize(Text(old(path[..])))
    ensures forall k :: |Text(old(path[..]))| < k < path.Length ==> path[k] == old(path[k])
  {
    hide TextLen, CollapseFrom, DoubleSlash, Normalize;
    ghost var t := Text(path[..]);
    NormalizeStart(t);
    TextHolds(path[..]);
    var src, dst := 0, 0;
    if path[src] == SLASH {
      src, dst := 1, 1;
    }
    ghost var done := t[..dst];
    while path[src] != 0
      invariant 0 <= dst <= src <= |t|
      invariant Holds(path[..], t, src)
      invariant forall k :: |t| < k < path.Length ==> path[k] == old(path[k])
      invariant path[..dst] == done && 0 !in done
      invariant done + CollapseFrom(t, src) == Normalize(t)
      decreases |t| - src
    {
      CollapseStep(t, src);
      if path[src] == SLASH && path[src + 1] == SLASH {
        src := src + 1;
      } else {
        path[dst] := path[src];
        assert done + ([t[src]] + CollapseFrom(t, src + 1)) == done + [t[src]] + CollapseFrom(t, src + 1);
        done := done + [t[src]];
        dst, src := dst + 1, src + 1;
      }
    }
    CollapseStep(t, src);
    path[dst] := 0;
    assert forall k :: 0 <= k < dst ==> path[k] == path[..dst][k] && done[k] in done;
    assert Holds(path[..], done, 0);
    StringIs(path[..], done);
  }

  function Longer(path: seq<byte>): nat
  {
    if path == [] then 1 else |path|
  }

  lemma {:induction false} EnterLength(path: seq<byte>, w: seq<byte>)
    ensures Longer(Enter(path, w)) <= Longer(path) + 1 + |w|
  {
  }

  class Shell {
    /** current_process->cwd */
    const cwd: array<byte>

    ghost predicate Valid()
      reads this, cwd
    {
      cwd.Length == VFS_MAX_PATH && 0 in cwd[..]
    }

    constructor ()
      ensures Valid() && fresh(cwd) && Text(cwd[..]) == []
    {
      cwd := new byte[VFS_MAX_PATH](_ => 0);
      new;
      assert cwd[0] == 0;
      StringIs(cwd[..], []);
    }

    /** One round of the component loop. */
    method EnterComponent(temp: array<byte>, w: seq<byte>)
      requires 0 in temp[..] && 0 in w && temp.Length >= 2
      requires |Text(temp[..])| + 1 + |Text(w)| < temp.Length
      modifies temp
      ensures 0 in temp[..] && Text(temp[..]) == Enter(Text(old(temp[..])), Text(w))
    {
      StoredConstants();
      var dot := CStrings.Strcmp(w, [DOT, 0]);
      if dot == 0 {
        return;
      }
      var dots := CStrings.Strcmp(w, DOTS + [0]);
      if dots == 0 {
        GetParentDir(temp);
        return;
      }
      var root := CStrings.Strcmp(temp[..], ROOT + [0]);
      if root != 0 {
        CStrings.Strcat(temp, ROOT + [0]);
      }
      CStrings.Strcat(temp, w);
    }

    /** `arg` is None for a null pointer; `opens` stands for vfs_open. */
    method CmdCd(arg: Option<seq<byte>>, opens: seq<byte> -> bool)
      requires Valid()
      requires arg.Some? ==> 0 in arg.value
      requires arg.Some? ==> Longer(Text(cwd[..])) + |Text(arg.value)| + 1 < VFS_MAX_PATH
      modifies cwd
      ensures Valid()
      ensures Text(cwd[..]) ==
              CdResult(Text(old(cwd[..])), if arg == None then None else Some(Text(arg.value)), opens)
      ensures var names, after := Split(Text(old(cwd[..])), SLASHES), Text(cwd[..]);
              AllNames(names) && Text(old(cwd[..])) == Render(names) ==>
                if arg == None || Text(arg.value) == [] then after == ROOT
                else if Text(arg.value) == [DOT] then after == Render(names)
                else
                  var stack := Steps(if Text(arg.value)[0] == SLASH then [] else names, Split(Text(arg.value), SLASHES));
                  && (Text(arg.value) == DOTS || opens(Render(stack)) ==> after == Render(stack))
                  && (Text(arg.value) != DOTS && !opens(Render(stack)) ==> after == Render(names))
    {
      CdOf(Text(cwd[..]), if arg == None then None else Some(Text(arg.value)), opens);
      StoredConstants();
      if arg == None || arg.value[0] == 0 {
        cwd[0], cwd[1] := SLASH, 0;
        StringIs(cwd[..], ROOT);
        return;
      }
      var path := arg.value;
      var dot := CStrings.Strcmp(path, [DOT, 0]);
      if dot == 0 {
        return;
      }
      var dots := CStrings.Strcmp(path, DOTS + [0]);
      if dots == 0 {
        GetParentDir(cwd);
        return;
      }
      ghost var start, text := Text(cwd[..]), Text(path);
      var temp := new byte[VFS_MAX_PATH](_ => 0);
      if path[0] == SLASH {
        temp[0], temp[1] := SLASH, 0;
        StringIs(temp[..], ROOT);
        TextTail(path);
        path := path[1..];
        start := ROOT;
      } else {
        CStrings.Strcpy(temp, 0, cwd[..]);
      }
      WalkComponents(temp, path);
      assert Text(temp[..]) == CdTarget(Text(cwd[..]), text);
      if !opens(Text(temp[..])) {
        return;
      }
      CStrings.Strcpy(cwd, 0, temp[..]);
    }

    /** The strtok_r loop of cmd_cd over a copy of `path`. */
    method WalkComponents(temp: array<byte>, path: seq<byte>)
      requires 0 in temp[..] && 0 in path && temp.Length == VFS_MAX_PATH
      requires Longer(Text(temp[..])) + |Text(path)| + 1 < VFS_MAX_PATH
      modifies temp
      ensures 0 in temp[..]
      ensures Text(temp[..]) == EnterAll(Text(old(temp[..])), Split(Text(path), SLASHES))
    {
      hide Holds, SplitFrom, TextLen, TokenStart, TokenEnd, Enter, TokenAt, Splice, Fill;
      ghost var t, p, words := Text(path), 0, Split(Text(path), SLASHES);
      var copy := new byte[VFS_MAX_PATH](_ => 0);
      CStrings.Strcpy(copy, 0, path);
      TextHolds(copy[..]);
      RoomBound(t, 0);
      StoredConstants();
      var token, save := StrtokR(copy, Some(0), ROOT + [0], 0, t);
      while token.Some?
        invariant TokenAt(copy[..], t, SLASHES, p, token, save)
        invariant p <= |t| && 0 in temp[..] && words == SplitFrom(t, SLASHES, p)
        invariant Longer(Text(temp[..])) + Room(words) < VFS_MAX_PATH
        invariant EnterAll(Text(temp[..]), words) == EnterAll(Text(old(temp[..])), Split(t, SLASHES))
        decreases |t| - p
      {
        TokenFound(copy[..], t, SLASHES, p, token, save);
        var w := copy[..][token.value..];
        EnterLength(Text(temp[..]), Text(w));
        assert words == [Text(w)] + words[1..];
        EnterComponent(temp, w);
        p, words := save, words[1..];
        token, save := StrtokR(copy, None, ROOT + [0], save, t);
      }
      NoTokenLeft(copy[..], t, SLASHES, p, save);
    }
  }

  lemma {:induction false} StoredConstants()
    ensures 0 in [DOT, 0] && Text([DOT, 0]) == [DOT]
    ensures 0 in DOTS + [0] && Text(DOTS + [0]) == DOTS
    ensures 0 in ROOT + [0] && Text(ROOT + [0]) == ROOT && Delims(ROOT + [0]) == SLASHES
  {
    StringIs([DOT, 0], [DOT]);
    StringIs(DOTS + [0], DOTS);
    StringIs(ROOT + [0], ROOT);
  }

  lemma {:induction false} TextTail(m: seq<byte>)
    requires 0 in m && m[0] != 0
    ensures 0 in m[1..] && Text(m[1..]) == Text(m)[1..]
  {
    TextHolds(m);
    HoldsText(m, Text(m), 1);
  }
}
