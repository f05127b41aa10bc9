/** strspn, strpbrk and strtok_r of string.c, and the sequence of pieces that repeated strtok_r calls
    deliver. */
module Tokens {
  import opened Bytes
  import CStrings

  /** The bytes of the delimiter string at `m`. */
  function Delims(m: seq<byte>): set<byte>
    requires 0 in m
  {
    set c | c in Text(m)
  }

  /** First byte of `t` at or after `p` that is not a delimiter. */
  function TokenStart(t: seq<byte>, d: set<byte>, p: nat): (i: nat)
    requires p <= |t|
    ensures p <= i <= |t|
    ensures i < |t| ==> t[i] !in d
    decreases |t| - p
  {
    if p == |t| || t[p] !in d then p else TokenStart(t, d, p + 1)
  }

  /** First delimiter of `t` at or after `p`. */
  function TokenEnd(t: seq<byte>, d: set<byte>, p: nat): (j: nat)
    requires p <= |t|
    ensures p <= j <= |t|
    ensures j < |t| ==> t[j] in d
    decreases |t| - p
  {
    if p == |t| || t[p] in d then p else TokenEnd(t, d, p + 1)
  }

  /** The pieces of `t` from `p` on, in order. */
  function SplitFrom(t: seq<byte>, d: set<byte>, p: nat): (words: seq<seq<byte>>)
    requires p <= |t|
    decreases |t| - p
  {
    var i := TokenStart(t, d, p);
    if i == |t| then [] else
      var j := TokenEnd(t, d, i);
      [t[i..j]] + SplitFrom(t, d, j)
  }

  /** What repeated strtok_r calls return for the string `t`. */
  function Split(t: seq<byte>, d: set<byte>): (words: seq<seq<byte>>)
  {
    SplitFrom(t, d, 0)
  }

  // ---- the pieces are exactly the maximal delimiter-free stretches ----

  /** A non-empty stretch of `t` without delimiters that no neighbour extends. */
  predicate MaximalPiece(t: seq<byte>, d: set<byte>, i: nat, j: nat)
  {
    && i < j <= |t|
    && (forall k :: i <= k < j ==> t[k] !in d)
    && (i == 0 || t[i - 1] in d)
    && (j == |t| || t[j] in d)
  }

  /** A position no delimiter-free stretch runs across. */
  predicate Boundary(t: seq<byte>, d: set<byte>, p: nat)
  {
    p <= |t| && (p == 0 || p == |t| || t[p - 1] in d || t[p] in d)
  }

  /** Where the pieces from `p` on sit in `t`. */
  ghost function SpansFrom(t: seq<byte>, d: set<byte>, p: nat): (s: seq<(nat, nat)>)
    requires p <= |t|
    decreases |t| - p
  {
    var i := TokenStart(t, d, p);
    if i == |t| then [] else
      var j := TokenEnd(t, d, i);
      [(i, j)] + SpansFrom(t, d, j)
  }

  lemma {:induction false} ScannedBytes(t: seq<byte>, d: set<byte>, p: nat)
    requires p <= |t|
    ensures forall k :: p <= k < TokenStart(t, d, p) ==> t[k] in d
    ensures forall k :: p <= k < TokenEnd(t, d, p) ==> t[k] !in d
    decreases |t| - p
  {
    if p < |t| {
      ScannedBytes(t, d, p + 1);
    }
  }

  lemma {:induction false} FirstPiece(t: seq<byte>, d: set<byte>, p: nat, a: nat, b: nat)
    requires Boundary(t, d, p) && TokenStart(t, d, p) < |t|
    ensures var i := TokenStart(t, d, p);
            var j := TokenEnd(t, d, i);
            && MaximalPiece(t, d, i, j) && Boundary(t, d, j)
            && (MaximalPiece(t, d, a, b) && p <= a ==> (a, b) == (i, j) || j <= a)
  {
    var i := TokenStart(t, d, p);
    var j := TokenEnd(t, d, i);
    ScannedBytes(t, d, p);
    ScannedBytes(t, d, i);
    if MaximalPiece(t, d, a, b) && p <= a < j {
      assert t[a] !in d;
      assert a == i by {
        assert forall k :: i <= k < j ==> t[k] !in d;
      }
    }
  }

  /** Repeated strtok_r calls deliver every maximal delimiter-free piece, and nothing else. */
  lemma {:induction false} SpansExact(t: seq<byte>, d: set<byte>, p: nat, a: nat, b: nat)
    requires Boundary(t, d, p)
    ensures (a, b) in SpansFrom(t, d, p) <==> MaximalPiece(t, d, a, b) && p <= a
    decreases |t| - p
  {
    var i := TokenStart(t, d, p);
    if i < |t| {
      FirstPiece(t, d, p, a, b);
      SpansExact(t, d, TokenEnd(t, d, i), a, b);
    } else {
      ScannedBytes(t, d, p);
      assert MaximalPiece(t, d, a, b) ==> a < |t| && t[a] !in d;
    }
  }

  /** The pieces come in order, separated by at least one delimiter, and SplitFrom returns their texts. */
  lemma {:induction false} SplitFollowsSpans(t: seq<byte>, d: set<byte>, p: nat)
    requires Boundary(t, d, p)
    ensures var s := SpansFrom(t, d, p);
            && |SplitFrom(t, d, p)| == |s|
            && (forall k :: 0 <= k < |s| ==> p <= s[k].0 < s[k].1 <= |t| && SplitFrom(t, d, p)[k] == t[s[k].0..s[k].1])
            && (forall k :: 0 < k < |s| ==> s[k - 1].1 < s[k].0)
    decreases |t| - p
  {
    var i := TokenStart(t, d, p);
    if i < |t| {
      var j := TokenEnd(t, d, i);
      FirstPiece(t, d, p, 0, 0);
      SplitFollowsSpans(t, d, j);
    }
  }

  lemma {:induction false} SplitClean(t: seq<byte>, d: set<byte>, p: nat)
    requires p <= |t|
    ensures forall w :: w in SplitFrom(t, d, p) ==> w != [] && (forall c :: c in d ==> c !in w)
    ensures 0 !in t ==> forall w :: w in SplitFrom(t, d, p) ==> 0 !in w
    decreases |t| - p
  {
    var i := TokenStart(t, d, p);
    if i < |t| {
      ScannedBytes(t, d, i);
      SplitClean(t, d, TokenEnd(t, d, i));
    }
  }

  lemma {:induction false} NoDelimiterAhead(t: seq<byte>, d: set<byte>, p: nat)
    requires p <= |t| && forall k :: p <= k < |t| ==> t[k] !in d
    ensures TokenEnd(t, d, p) == |t|
    decreases |t| - p
  {
    if p < |t| {
      NoDelimiterAhead(t, d, p + 1);
    }
  }

  lemma {:induction false} SplitOne(w: seq<byte>, d: set<byte>)
    requires w != [] && forall c :: c in w ==> c !in d
    ensures Split(w, d) == [w]
  {
    NoDelimiterAhead(w, d, 0);
    assert w[0..|w|] == w;
    assert SplitFrom(w, d, |w|) == [];
  }

  lemma {:induction false} TokenShift(c: byte, u: seq<byte>, d: set<byte>, p: nat)
    requires p <= |u|
    ensures TokenStart([c] + u, d, p + 1) == TokenStart(u, d, p) + 1
    ensures TokenEnd([c] + u, d, p + 1) == TokenEnd(u, d, p) + 1
    decreases |u| - p
  {
    if p < |u| {
      TokenShift(c, u, d, p + 1);
    }
  }

  lemma {:induction false} SplitShift(c: byte, u: seq<byte>, d: set<byte>, p: nat)
    requires p <= |u|
    ensures SplitFrom([c] + u, d, p + 1) == SplitFrom(u, d, p)
    decreases |u| - p
  {
    TokenShift(c, u, d, p);
    var i := TokenStart(u, d, p);
    if i < |u| {
      TokenShift(c, u, d, i);
      var j := TokenEnd(u, d, i);
      assert ([c] + u)[i + 1..j + 1] == u[i..j];
      SplitShift(c, u, d, j);
    }
  }

  lemma {:induction false} SplitEmpty(d: set<byte>)
    ensures Split([], d) == []
  {
  }

  lemma {:induction false} SplitLeading(c: byte, u: seq<byte>, d: set<byte>)
    requires c in d
    ensures Split([c] + u, d) == Split(u, d)
  {
    SplitPastDelimiter([c] + u, d, 0);
    SplitShift(c, u, d, 0);
  }

  /** With a delimiter between them, the pieces of two strings are those of the one and those of the other. */
  lemma {:induction false} SplitBoth(a: seq<byte>, c: byte, b: seq<byte>, d: set<byte>, p: nat)
    requires p <= |a| && c in d
    ensures SplitFrom(a + [c] + b, d, p) == SplitFrom(a, d, p) + Split(b, d)
    decreases |a| - p
  {
    var t := a + [c] + b;
    var i := TokenStart(a, d, p);
    TokensOfFront(a, c, b, d, p);
    if i < |a| {
      TokensOfFront(a, c, b, d, i);
      var j := TokenEnd(a, d, i);
      assert t[i..j] == a[i..j];
      SplitBoth(a, c, b, d, j);
    } else {
      SkipFront(a, c, b, d, p);
      BehindFront(a, c, b, d);
    }
  }

  lemma {:induction false} TokensOfFront(a: seq<byte>, c: byte, b: seq<byte>, d: set<byte>, p: nat)
    requires p <= |a| && c in d
    ensures TokenStart(a, d, p) < |a| ==> TokenStart(a + [c] + b, d, p) == TokenStart(a, d, p)
    ensures TokenEnd(a + [c] + b, d, p) == TokenEnd(a, d, p)
    decreases |a| - p
  {
    var t := a + [c] + b;
    if p < |a| {
      assert t[p] == a[p];
      TokensOfFront(a, c, b, d, p + 1);
    } else {
      assert t[|a|] == c;
    }
  }

  lemma {:induction false} SkipFront(a: seq<byte>, c: byte, b: seq<byte>, d: set<byte>, p: nat)
    requires p <= |a| && c in d && TokenStart(a, d, p) == |a|
    ensures SplitFrom(a + [c] + b, d, p) == SplitFrom(a + [c] + b, d, |a|)
    decreases |a| - p
  {
    if p < |a| {
      assert (a + [c] + b)[p] == a[p];
      SplitPastDelimiter(a + [c] + b, d, p);
      SkipFront(a, c, b, d, p + 1);
    }
  }

  /** Pieces behind a front part are those of the part behind it. */
  lemma {:induction false} BehindFront(a: seq<byte>, c: byte, b: seq<byte>, d: set<byte>)
    requires c in d
    ensures SplitFrom(a + [c] + b, d, |a|) == Split(b, d)
    decreases |a|
  {
    if a == [] {
      assert [] + [c] + b == [c] + b;
      SplitLeading(c, b, d);
    } else {
      assert a + [c] + b == [a[0]] + (a[1..] + [c] + b);
      SplitShift(a[0], a[1..] + [c] + b, d, |a| - 1);
      BehindFront(a[1..], c, b, d);
    }
  }

  lemma {:induction false} SplitJoined(a: seq<byte>, d: set<byte>, b: seq<byte>)
    requires SLASH in d
    ensures Split(a + [SLASH] + b, d) == Split(a, d) + Split(b, d)
  {
    SplitBoth(a, SLASH, b, d, 0);
  }

  // ---- strings inside a buffer ----

  /** From offset `p` on, the memory `m` holds the string `t` and its terminator. The string that was
      there first may have been cut up before `p`. */
  ghost predicate Holds(m: seq<byte>, t: seq<byte>, p: nat)
  {
    && p <= |t| < |m|
    && m[|t|] == 0
    && forall k :: p <= k < |t| ==> m[k] == t[k] && t[k] != 0
  }

  lemma {:induction false} HoldsText(m: seq<byte>, t: seq<byte>, p: nat)
    requires Holds(m, t, p)
    ensures 0 in m[p..] && Text(m[p..]) == t[p..]
  {
    var s := m[p..];
    assert s[|t| - p] == 0;
    assert s[..|t| - p] == t[p..];
    TextLenIs(s, |t| - p);
  }

  lemma {:induction false} TextHolds(m: seq<byte>)
    requires 0 in m
    ensures Holds(m, Text(m), 0)
  {
    AbsentFrom(m, TextLen(m), 0);
  }

  /** A delimiter just behind a piece may be skipped. */
  lemma {:induction false} SplitPastDelimiter(t: seq<byte>, d: set<byte>, j: nat)
    requires j < |t| && t[j] in d
    ensures SplitFrom(t, d, j) == SplitFrom(t, d, j + 1)
  {
    assert TokenStart(t, d, j) == TokenStart(t, d, j + 1);
  }

  /** Where strtok_r resumes after a piece that ends at `j`. */
  function After(t: seq<byte>, j: nat): nat
  {
    if j < |t| then j + 1 else j
  }

  lemma {:induction false} SplitStep(t: seq<byte>, d: set<byte>, p: nat)
    requires p <= |t| && TokenStart(t, d, p) < |t|
    ensures var i := TokenStart(t, d, p);
            var j := TokenEnd(t, d, i);
            i < j && SplitFrom(t, d, p) == [t[i..j]] + SplitFrom(t, d, After(t, j))
  {
    var j := TokenEnd(t, d, TokenStart(t, d, p));
    if j < |t| {
      SplitPastDelimiter(t, d, j);
    }
  }

  // ---- the C functions; a pointer into a buffer is an offset ----

  /** Is `c` one of the characters of the string at `accept`? The inner loops of strspn and strpbrk. */
  method Listed(c: byte, accept: seq<byte>) returns (found: bool)
    requires 0 in accept && c != 0
    ensures found <==> c in Delims(accept)
  {
    var a := 0;
    ghost var w := Text(accept);
    while accept[a] != 0 && c != accept[a]
      invariant a <= |w| && c !in w[..a]
      decreases |w| - a
    {
      assert a != |w|;
      a := a + 1;
    }
    if accept[a] == 0 {
      TextLenIs(accept, a);
      return false;
    }
    assert w[a] in w;
    return true;
  }

  method Strspn(m: seq<byte>, at: nat, accept: seq<byte>, ghost t: seq<byte>) returns (count: nat)
    requires Holds(m, t, at) && 0 in accept
    ensures at + count == TokenStart(t, Delims(accept), at)
  {
    count := 0;
    while m[at + count] != 0
      invariant at + count <= |t|
      invariant TokenStart(t, Delims(accept), at) == TokenStart(t, Delims(accept), at + count)
      decreases |t| - count
    {
      var found := Listed(m[at + count], accept);
      if !found {
        return;
      }
      count := count + 1;
    }
  }

  /** The offset of the first byte of `accept`, None for the null result. */
  method Strpbrk(m: seq<byte>, at: nat, accept: seq<byte>, ghost t: seq<byte>) returns (r: Option<nat>)
    requires Holds(m, t, at) && 0 in accept
    ensures var j := TokenEnd(t, Delims(accept), at); r == if j == |t| then None else Some(j)
  {
    var i := at;
    while m[i] != 0
      invariant at <= i <= |t|
      invariant TokenEnd(t, Delims(accept), at) == TokenEnd(t, Delims(accept), i)
      decreases |t| - i
    {
      var found := Listed(m[i], accept);
      if found {
        return Some(i);
      }
      i := i + 1;
    }
    return None;
  }

  /** The state between two strtok_r calls on the string `t`: the piece that starts at or after `p` has
      been found at `token` and cut off, and saveptr points at the rest; or no piece is left. */
  ghost predicate TokenAt(m: seq<byte>, t: seq<byte>, d: set<byte>, p: nat, token: Option<nat>, save: nat)
  {
    && p <= |t|
    && var i := TokenStart(t, d, p);
       if i == |t| then token == None && save == i else
         var j := TokenEnd(t, d, i);
         token == Some(i) && save == After(t, j) && Holds(m, t[..j], i) && Holds(m, t, save)
  }

  lemma {:induction false} TokenFound(m: seq<byte>, t: seq<byte>, d: set<byte>, p: nat, token: Option<nat>, save: nat)
    requires TokenAt(m, t, d, p, token, save) && token.Some?
    ensures token.value < |m| && 0 in m[token.value..]
    ensures SplitFrom(t, d, p) == [Text(m[token.value..])] + SplitFrom(t, d, save)
    ensures p < save <= |t| && Holds(m, t, save)
  {
    SplitStep(t, d, p);
    HoldsText(m, t[..TokenEnd(t, d, token.value)], token.value);
  }

  lemma {:induction false} NoTokenLeft(m: seq<byte>, t: seq<byte>, d: set<byte>, p: nat, save: nat)
    requires TokenAt(m, t, d, p, None, save)
    ensures SplitFrom(t, d, p) == []
  {
  }

  /** One strtok_r call: `str` is the string pointer (None for NULL), `save` the value behind saveptr.
      The piece found becomes a C string of its own, and saveptr points at the rest of `t`. */
  method StrtokR(buf: array<byte>, str: Option<nat>, delim: seq<byte>, save: nat, ghost t: seq<byte>)
    returns (token: Option<nat>, save': nat)
    requires 0 in delim && Holds(buf[..], t, if str.Some? then str.value else save)
    modifies buf
    ensures TokenAt(buf[..], t, Delims(delim), if str.Some? then str.value else save, token, save')
    ensures buf[..] == if token == None then old(buf[..])
                       else old(buf[..])[TokenEnd(t, Delims(delim), token.value) := 0]
  {
    var at := if str.Some? then str.value else save;
    var skip := Strspn(buf[..], at, delim, t);
    at := at + skip;
    if buf[at] == 0 {
      return None, at;
    }
    token := Some(at);
    var end := Strpbrk(buf[..], at, delim, t);
    if end == None {
      HoldsText(buf[..], t, at);
      var n := CStrings.Strlen(buf[..][at..]);
      save' := at + n;
    } else {
      buf[end.value] := 0;
      save' := end.value + 1;
    }
  }

  /** The strtok_r loop of shell.c and abyssfs.c: the first call passes the buffer, the others NULL. It
      terminates on every buffer and delivers exactly the pieces of the string that was there. */
  method Tokenize(buf: array<byte>, delim: seq<byte>) returns (words: seq<seq<byte>>)
    requires 0 in delim && 0 in buf[..]
    modifies buf
    ensures words == Split(Text(old(buf[..])), Delims(delim))
  {
    hide Holds, SplitFrom, TextLen, TokenStart, TokenEnd;
    ghost var t, d, p := Text(buf[..]), Delims(delim), 0;
    TextHolds(buf[..]);
    words := [];
    var token, save := StrtokR(buf, Some(0), delim, 0, t);
    while token.Some?
      invariant TokenAt(buf[..], t, d, p, token, save)
      invariant words + SplitFrom(t, d, p) == Split(t, d)
      decreases |t| - p
    {
      TokenFound(buf[..], t, d, p, token, save);
      var s := buf[..][token.value..];
      var n := CStrings.Strlen(s);
      assert words + ([Text(s)] + SplitFrom(t, d, save)) == words + [Text(s)] + SplitFrom(t, d, save);
      words := words + [s[..n]];
      p := save;
      token, save := StrtokR(buf, None, delim, save, t);
    }
    NoTokenLeft(buf[..], t, d, p, save);
  }
}
