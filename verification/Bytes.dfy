/** Memory as the kernel sees it: bytes, C strings inside byte sequences, and in-place patches.

    A `const char *` argument is modelled by the bytes from the pointer to the end of the object it
    points into; the string it denotes is the text in front of the first NUL. */
module Bytes {

  type byte = b: int | 0 <= b < 256

  const DOT: byte := 46
  const SLASH: byte := 47
  const SLASHES: set<byte> := {SLASH}

  /** The size of every path buffer. */
  const VFS_MAX_PATH := 256

  datatype Option<T> = None | Some(value: T)

  /** Index of the first NUL, as strlen computes it. */
  function TextLen(m: seq<byte>): (n: nat)
    requires 0 in m
    ensures n < |m| && m[n] == 0 && 0 !in m[..n]
  {
    if m[0] == 0 then 0 else
      var n := 1 + TextLen(m[1..]);
      assert m[..n] == [m[0]] + m[1..][..n - 1];
      n
  }

  /** The C string stored at the front of `m`. */
  function Text(m: seq<byte>): (t: seq<byte>)
    requires 0 in m
    ensures 0 !in t
  {
    m[..TextLen(m)]
  }

  lemma AbsentFrom<T>(m: seq<T>, n: nat, c: T)
    requires n <= |m| && c !in m[..n]
    ensures forall k :: 0 <= k < n ==> m[k] != c
  {
    forall k | 0 <= k < n
      ensures m[k] != c
    {
      assert m[..n][k] in m[..n];
    }
  }

  lemma TextLenIs(m: seq<byte>, n: nat)
    requires n < |m| && m[n] == 0 && 0 !in m[..n]
    ensures TextLen(m) == n
  {
    AbsentFrom(m, n, 0);
    AbsentFrom(m, TextLen(m), 0);
  }

  /** `t` stored with its terminator reads back as `t`, whatever follows. */
  lemma StoredText(t: seq<byte>, rest: seq<byte>)
    requires 0 !in t
    ensures 0 in t + [0] + rest
    ensures Text(t + [0] + rest) == t
  {
    var m := t + [0] + rest;
    assert m[|t|] == 0;
    assert m[..|t|] == t;
    TextLenIs(m, |t|);
  }

  /** The text at the front of `m` does not depend on what follows its terminator. */
  lemma TextPrefix(m: seq<byte>, n: nat)
    requires 0 in m && TextLen(m) < n <= |m|
    ensures 0 in m[..n] && Text(m[..n]) == Text(m)
  {
    var k := TextLen(m);
    assert m[..n][k] == 0;
    assert m[..n][..k] == m[..k];
    TextLenIs(m[..n], k);
  }

  /** `s + n` points at the text without its first `n` characters. */
  lemma TextDrop(m: seq<byte>, n: nat)
    requires 0 in m && n <= TextLen(m)
    ensures 0 in m[n..] && Text(m[n..]) == Text(m)[n..]
  {
    hide TextLen;
    var k := TextLen(m);
    AbsentFrom(m, k, 0);
    assert m[n..][k - n] == 0;
    assert m[n..][..k - n] == m[..k][n..];
    TextLenIs(m[n..], k - n);
  }

  /** Memory that holds a string. */
  type CString = m: seq<byte> | 0 in m witness [0]

  function Fill(c: byte, n: nat): seq<byte>
  {
    seq(n, _ => c)
  }

  function Zeros(n: nat): seq<byte>
  {
    Fill(0, n)
  }

  /** `d` with the bytes at `off` overwritten by `x`. */
  function Splice(d: seq<byte>, off: nat, x: seq<byte>): (r: seq<byte>)
    requires off + |x| <= |d|
    ensures |r| == |d|
    ensures forall k :: 0 <= k < |d| ==> r[k] == if off <= k < off + |x| then x[k - off] else d[k]
  {
    d[..off] + x + d[off + |x|..]
  }

  lemma SplicePieces(d: seq<byte>, off: nat, x: seq<byte>)
    requires off + |x| <= |d|
    ensures var r := Splice(d, off, x);
            r[..off] == d[..off] && r[off..off + |x|] == x && r[off + |x|..] == d[off + |x|..]
  {
  }

  lemma SliceOfTake<T>(s: seq<T>, n: nat, a: nat, b: nat)
    requires a <= b <= n <= |s|
    ensures s[..n][a..b] == s[a..b]
  {
  }

  function Min(a: int, b: int): int
  {
    if a <= b then a else b
  }

  /** The first at most `n` elements. */
  function Take<T>(s: seq<T>, n: nat): (r: seq<T>)
    ensures r <= s && |r| == if n <= |s| then n else |s|
  {
    s[..Min(n, |s|)]
  }

  lemma PrefixTaken<T>(s: seq<T>, p: seq<T>)
    ensures Take(s, |p|) == Take(p, |p|) <==> p <= s
  {
  }

  lemma TakeExtended<T>(s: seq<T>, l: seq<T>, n: nat)
    requires |Take(s, n)| < n && |l| <= 1
    ensures Take(s, n) + l == Take(s + l, n)
  {
  }

  lemma TakeFull<T>(s: seq<T>, more: seq<T>, n: nat)
    requires |Take(s, n)| >= n
    ensures Take(s + more, n) == Take(s, n)
  {
  }
}
