/** string.c: the pointer loops the rest of the kernel is built on. */
module CStrings {
  import opened Bytes

  /** Byte order of two C strings, unsigned, as strcmp and strncmp decide it. */
  predicate TextLess(s: seq<byte>, t: seq<byte>)
  {
    t != [] && (s == [] || s[0] < t[0] || (s[0] == t[0] && TextLess(s[1..], t[1..])))
  }

  lemma {:induction false} TextLessAt(s: seq<byte>, t: seq<byte>, n: nat)
    requires n <= |s| && n <= |t| && s[..n] == t[..n]
    requires n == |s| || n == |t| || s[n] != t[n]
    ensures TextLess(s, t) <==> n < |t| && (n == |s| || s[n] < t[n])
    ensures s == t <==> n == |s| == |t|
  {
    if n > 0 {
      assert s[0] == s[..n][0] == t[..n][0] == t[0];
      assert s[1..][..n - 1] == s[..n][1..] == t[..n][1..] == t[1..][..n - 1];
      TextLessAt(s[1..], t[1..], n - 1);
    }
  }

  method Strlen(s: seq<byte>) returns (n: nat)
    requires 0 in s
    ensures n == |Text(s)|
  {
    n := 0;
    while s[n] != 0
      invariant n <= TextLen(s)
      decreases TextLen(s) - n
    {
      assert n != TextLen(s);
      n := n + 1;
    }
    TextLenIs(s, n);
  }

  method Strcmp(s: seq<byte>, t: seq<byte>) returns (r: int)
    requires 0 in s && 0 in t
    ensures r == 0 <==> Text(s) == Text(t)
    ensures r < 0 <==> TextLess(Text(s), Text(t))
  {
    hide TextLess, TextLen;
    var i := 0;
    while s[i] != 0 && s[i] == t[i]
      invariant i <= TextLen(s) && i <= TextLen(t)
      invariant s[..i] == t[..i]
      decreases TextLen(s) - i
    {
      i := i + 1;
    }
    r := s[i] as int - t[i] as int;
    var a, b := Text(s), Text(t);
    assert a[..i] == s[..i] && b[..i] == t[..i];
    TextLessAt(a, b, i);
  }

  /** Zero exactly when the two strings agree on their first `n` characters. */
  method Strncmp(s: seq<byte>, t: seq<byte>, n: nat) returns (r: int)
    requires 0 in s && 0 in t
    ensures r == 0 <==> Take(Text(s), n) == Take(Text(t), n)
    ensures r < 0 <==> TextLess(Take(Text(s), n), Take(Text(t), n))
  {
    hide TextLess, TextLen;
    var i, left := 0, n;
    while left != 0 && s[i] != 0 && s[i] == t[i]
      invariant i <= TextLen(s) && i <= TextLen(t)
      invariant left == n - i
      invariant s[..i] == t[..i]
      decreases TextLen(s) - i
    {
      i, left := i + 1, left - 1;
    }
    r := if left == 0 then 0 else s[i] as int - t[i] as int;
    var a, b := Take(Text(s), n), Take(Text(t), n);
    assert a[..i] == s[..i] && b[..i] == t[..i];
    TextLessAt(a, b, i);
  }

  lemma StoredAtFront(d: seq<byte>, at: nat, t: seq<byte>)
    requires at + |t| + 1 <= |d| && 0 !in t
    ensures var m := Splice(d, at, t + [0]); at == 0 ==> 0 in m && Text(m) == t
  {
    if at == 0 {
      assert Splice(d, 0, t + [0]) == t + [0] + d[|t| + 1..];
      StoredText(t, d[|t| + 1..]);
    }
  }

  /** Copies the string at `src`, terminator included, to `dest[at..]`; touches nothing else. */
  method Strcpy(dest: array<byte>, at: nat, src: seq<byte>)
    requires 0 in src && at + |Text(src)| + 1 <= dest.Length
    modifies dest
    ensures dest[..] == Splice(old(dest[..]), at, Text(src) + [0])
    ensures at == 0 ==> 0 in dest[..] && Text(dest[..]) == Text(src)
  {
    var i := 0;
    ghost var n := TextLen(src);
    while true
      invariant i <= n
      invariant dest[..] == Splice(old(dest[..]), at, src[..i])
      decreases n - i
    {
      dest[at + i] := src[i];
      assert src[..i + 1] == src[..i] + [src[i]];
      if src[i] == 0 {
        TextLenIs(src, i);
        assert src[..i + 1] == Text(src) + [0];
        StoredAtFront(old(dest[..]), at, Text(src));
        return;
      }
      i := i + 1;
    }
  }

  /** At most `n` characters, padded with NULs up to `n`. */
  method Strncpy(dest: array<byte>, src: seq<byte>, n: nat)
    requires 0 in src && n <= dest.Length
    modifies dest
    ensures var t := Take(Text(src), n);
            dest[..] == Splice(old(dest[..]), 0, t + Zeros(n - |t|))
  {
    hide TextLen;
    ghost var t := Take(Text(src), n);
    var i := 0;
    while i < n && src[i] != 0
      invariant i <= |t|
      invariant forall k :: 0 <= k < i ==> dest[k] == t[k]
      invariant forall k :: i <= k < dest.Length ==> dest[k] == old(dest[k])
      decreases |t| - i
    {
      dest[i] := src[i];
      i := i + 1;
    }
    while i < n
      invariant |t| <= i <= n
      invariant forall k :: 0 <= k < i ==> dest[k] == if k < |t| then t[k] else 0
      invariant forall k :: i <= k < dest.Length ==> dest[k] == old(dest[k])
    {
      dest[i] := 0;
      i := i + 1;
    }
    assert dest[..] == Splice(old(dest[..]), 0, t + Zeros(n - |t|));
  }

  /** Appends the string at `src` to the string at the front of `dest`. */
  method Strcat(dest: array<byte>, src: seq<byte>)
    requires 0 in dest[..] && 0 in src
    requires |Text(dest[..])| + |Text(src)| + 1 <= dest.Length
    modifies dest
    ensures dest[..] == Splice(old(dest[..]), |Text(old(dest[..]))|, Text(src) + [0])
    ensures 0 in dest[..] && Text(dest[..]) == Text(old(dest[..])) + Text(src)
  {
    var d := Strlen(dest[..]);
    Strcpy(dest, d, src);
    ghost var t := Text(old(dest[..])) + Text(src);
    assert dest[..] == t + [0] + old(dest[..])[|t| + 1..];
    StoredText(t, old(dest[..])[|t| + 1..]);
  }

  /** Index of the last occurrence of `c` in `t`, if there is one. */
  function LastIndex(t: seq<byte>, c: byte): (r: Option<nat>)
    ensures r == None <==> c !in t
    ensures r.Some? ==> r.value < |t| && t[r.value] == c && c !in t[r.value + 1..]
  {
    if t == [] then None
    else if t[|t| - 1] == c then Some(|t| - 1)
    else
      var r := LastIndex(t[..|t| - 1], c);
      assert r.Some? ==> t[r.value + 1..] == t[..|t| - 1][r.value + 1..] + [t[|t| - 1]];
      r
  }

  lemma {:induction false} LastIndexIs(t: seq<byte>, c: byte, k: nat)
    requires k < |t| && t[k] == c
    requires forall j :: k < j < |t| ==> t[j] != c
    ensures LastIndex(t, c) == Some(k)
  {
    var r := LastIndex(t, c).value;
    forall j | r < j < |t|
      ensures t[j] != c
    {
      assert t[j] == t[r + 1..][j - r - 1];
    }
  }

  /** The terminator counts as part of the string. */
  method Strrchr(s: seq<byte>, c: byte) returns (last: Option<nat>)
    requires 0 in s
    ensures last == if c == 0 then Some(|Text(s)|) else LastIndex(Text(s), c)
  {
    last := None;
    var i := 0;
    while s[i] != 0
      invariant i <= TextLen(s)
      invariant last == LastIndex(s[..i], c)
      decreases TextLen(s) - i
    {
      assert i != TextLen(s);
      assert s[..i + 1][..i] == s[..i];
      if s[i] == c {
        last := Some(i);
      }
      i := i + 1;
    }
    TextLenIs(s, i);
    if c == 0 {
      return Some(i);
    }
  }

  method Memset(dest: array<byte>, at: nat, c: byte, n: nat)
    requires at + n <= dest.Length
    modifies dest
    ensures dest[..] == Splice(old(dest[..]), at, Fill(c, n))
  {
    var i := 0;
    while i < n
      invariant i <= n
      invariant dest[..] == Splice(old(dest[..]), at, Fill(c, i))
    {
      dest[at + i] := c;
      i := i + 1;
    }
  }

  method Memcpy(dest: array<byte>, at: nat, src: seq<byte>, n: nat)
    requires at + n <= dest.Length && n <= |src|
    modifies dest
    ensures dest[..] == Splice(old(dest[..]), at, src[..n])
  {
    var i := 0;
    while i < n
      invariant i <= n
      invariant dest[..] == Splice(old(dest[..]), at, src[..i])
    {
      dest[at + i] := src[i];
      i := i + 1;
    }
  }

  /** Both regions lie in one object and may overlap either way: the destination receives the bytes
      the source region held before the call, and every other byte keeps its value. */
  method Memmove(a: array<byte>, dest: nat, src: nat, n: nat)
    requires dest + n <= a.Length && src + n <= a.Length
    modifies a
    ensures a[..] == Splice(old(a[..]), dest, old(a[src..src + n]))
  {
    ghost var was := a[..];
    if dest > src && dest < src + n {
      var k: nat := n;
      while k > 0
        invariant k <= n
        invariant forall j :: dest + k <= j < dest + n ==> a[j] == was[src + (j - dest)]
        invariant forall j :: 0 <= j < a.Length && !(dest + k <= j < dest + n) ==> a[j] == was[j]
      {
        k := k - 1;
        a[dest + k] := a[src + k];
      }
    } else {
      var k: nat := 0;
      while k < n
        invariant k <= n
        invariant forall j :: dest <= j < dest + k ==> a[j] == was[src + (j - dest)]
        invariant forall j :: 0 <= j < a.Length && !(dest <= j < dest + k) ==> a[j] == was[j]
      {
        a[dest + k] := a[src + k];
        k := k + 1;
      }
    }
  }
}
