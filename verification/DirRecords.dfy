/** The directory format of abyssfs.c: packed variable-length records chained by an 8-bit length. A record
    at offset `p` of a block is a 4-byte inode number, name_len at p + 4, rec_len at p + 5 and the
    NUL-terminated name from p + 6. A record length of zero ends the chain. */
module DirRecords {
  import opened Bytes

  // ---- little-endian words ----

  const WORD := 0x1_0000_0000

  function U32(m: seq<byte>, at: nat): (v: nat)
    requires at + 4 <= |m|
    ensures v < WORD
  {
    m[at] as int + 0x100 * m[at + 1] as int + 0x1_0000 * m[at + 2] as int + 0x100_0000 * m[at + 3] as int
  }

  function LE32(v: nat): (x: seq<byte>)
    requires v < WORD
    ensures |x| == 4
  {
    [v % 0x100, v / 0x100 % 0x100, v / 0x100 / 0x100 % 0x100, v / 0x100 / 0x100 / 0x100]
  }

  lemma {:induction false} WordRoundTrip(m: seq<byte>, at: nat, v: nat)
    requires v < WORD && at + 4 <= |m|
    requires m[at..at + 4] == LE32(v)
    ensures U32(m, at) == v
  {
    var x := LE32(v);
    assert m[at] == x[0] && m[at + 1] == x[1] && m[at + 2] == x[2] && m[at + 3] == x[3];
  }

  // ---- record lengths ----

  /** round_up with its 8-bit parameters and result; `align` is a power of two. */
  function RoundUp(val: byte, align: byte): byte
    requires align in {1, 2, 4, 8, 16, 32, 64, 128}
  {
    (val + align - 1) / align * align % 0x100
  }

  /** The record length both abyssfs_init and create_file compute for a name of `n` bytes. */
  function MinRec(n: nat): byte
  {
    RoundUp((6 + n + 1) % 0x100, 4)
  }

  const NAME_MAX := 245

  /** The 8-bit length covers the record exactly for names of up to 245 bytes; then it is the least
      multiple of four that does. */
  lemma {:induction false} RecordLengthFits(n: nat)
    ensures MinRec(n) >= 7 + n <==> n <= NAME_MAX
    ensures n <= NAME_MAX ==> MinRec(n) % 4 == 0 && MinRec(n) < 7 + n + 4
  {
    if n <= NAME_MAX {
      assert (6 + n + 1) % 0x100 == 7 + n;
    }
  }

  // ---- chains of records ----

  datatype Entry = Entry(inode: nat, name: seq<byte>)

  /** `b` is the block, `p` the offset of a record with a non-zero length. */
  predicate GoodRecord(b: seq<byte>, p: nat)
  {
    && p + 6 <= |b|
    && b[p + 4] <= NAME_MAX
    && 7 + b[p + 4] <= b[p + 5]
    && p + b[p + 5] <= |b|
    && b[p + 6 + b[p + 4]] == 0
    && forall k :: p + 6 <= k < p + 6 + b[p + 4] ==> b[k] != 0
  }

  function EntryAt(b: seq<byte>, p: nat): Entry
    requires GoodRecord(b, p)
  {
    Entry(U32(b, p), b[p + 6..p + 6 + b[p + 4]])
  }

  /** The records from `p` on end inside the block at a zero length, and only the last one has slack. */
  predicate Chain(b: seq<byte>, p: nat)
    decreases |b| - p
  {
    && p + 6 <= |b|
    && (b[p + 5] != 0 ==>
          && GoodRecord(b, p)
          && Chain(b, p + b[p + 5])
          && (b[p + b[p + 5] + 5] != 0 ==> b[p + 5] == MinRec(b[p + 4])))
  }

  /** The directory listing stored from `p` on. */
  function Entries(b: seq<byte>, p: nat): (es: seq<Entry>)
    requires Chain(b, p)
    decreases |b| - p
  {
    if b[p + 5] == 0 then [] else [EntryAt(b, p)] + Entries(b, p + b[p + 5])
  }

  /** Offset of the record behind the one at `p`. */
  function Next(b: seq<byte>, p: nat): nat
    requires p + 6 <= |b|
  {
    p + b[p + 5]
  }

  lemma {:induction false} Unfold(b: seq<byte>, p: nat)
    requires Chain(b, p)
    ensures p + 6 <= |b|
    ensures b[p + 5] == 0 ==> Entries(b, p) == []
    ensures b[p + 5] != 0 ==>
              var q := Next(b, p);
              && GoodRecord(b, p) && q + 6 <= |b| && Chain(b, q)
              && Entries(b, p) == [EntryAt(b, p)] + Entries(b, q)
              && (b[q + 5] != 0 ==> b[p + 5] == MinRec(b[p + 4]))
  {
    if b[p + 5] != 0 {
      assert Chain(b, Next(b, p));
    }
  }

  lemma {:induction false} Fold(b: seq<byte>, p: nat)
    requires p + 6 <= |b| && GoodRecord(b, p)
    requires var q := Next(b, p); Chain(b, q) && (b[q + 5] != 0 ==> b[p + 5] == MinRec(b[p + 4]))
    ensures Chain(b, p) && Entries(b, p) == [EntryAt(b, p)] + Entries(b, Next(b, p))
  {
  }

  /** Offset of the last record. */
  function LastAt(b: seq<byte>, p: nat): (l: nat)
    requires Chain(b, p) && b[p + 5] != 0
    ensures p <= l && l + 6 <= |b|
    decreases |b| - p
  {
    Unfold(b, p);
    var q := Next(b, p);
    if b[q + 5] == 0 then p else LastAt(b, q)
  }

  lemma {:induction false} LastRecord(b: seq<byte>, p: nat)
    requires Chain(b, p) && b[p + 5] != 0
    ensures var l := LastAt(b, p);
            && b[l + 5] != 0 && Chain(b, l) && Next(b, l) + 6 <= |b| && b[Next(b, l) + 5] == 0
    decreases |b| - p
  {
    hide Chain, Entries;
    Unfold(b, p);
    if b[Next(b, p) + 5] != 0 {
      LastRecord(b, Next(b, p));
    }
  }

  /** Bytes the entries need when every record has its minimal length. */
  function MinSize(es: seq<Entry>): nat
  {
    if es == [] then 0 else MinRec(|es[0].name|) + MinSize(es[1..])
  }

  /** Only the last record has slack, so the minimal sizes add up to where create_file goes on. */
  lemma {:induction false} LastEnd(b: seq<byte>, p: nat)
    requires Chain(b, p) && b[p + 5] != 0
    ensures var l := LastAt(b, p); p + MinSize(Entries(b, p)) == l + MinRec(b[l + 4])
    decreases |b| - p
  {
    hide Chain, Entries, MinRec, U32;
    Unfold(b, p);
    var q := Next(b, p);
    if b[q + 5] != 0 {
      LastEnd(b, q);
    } else {
      Unfold(b, q);
    }
  }

  // ---- decoding does not depend on the position ----

  lemma {:induction false} ChainShift(b: seq<byte>, p: nat, c: seq<byte>, q: nat)
    requires Chain(b, p) && q + (|b| - p) <= |c|
    requires forall k :: p <= k < |b| ==> c[k - p + q] == b[k]
    ensures Chain(c, q) && Entries(c, q) == Entries(b, p)
    decreases |b| - p
  {
    assert c[q + 5] == b[p + 5];
    if b[p + 5] != 0 {
      RecordShift(b, p, c, q);
      ChainShift(b, Next(b, p), c, Next(c, q));
      assert c[Next(c, q) + 5] == b[Next(b, p) + 5];
    }
  }

  lemma {:induction false} RecordShift(b: seq<byte>, p: nat, c: seq<byte>, q: nat)
    requires GoodRecord(b, p) && q + b[p + 5] <= |c|
    requires forall k :: p <= k < p + b[p + 5] ==> c[k - p + q] == b[k]
    ensures c[q + 4] == b[p + 4] && c[q + 5] == b[p + 5]
    ensures GoodRecord(c, q) && EntryAt(c, q) == EntryAt(b, p)
  {
    var n := b[p + 4];
    assert c[q + 4] == b[p + 4] && c[q + 5] == b[p + 5];
    assert c[q + 6 + n] == b[p + 6 + n];
    forall k | q + 6 <= k < q + 6 + n
      ensures c[k] == b[k - q + p]
    {
      assert b[k - q + p] == c[(k - q + p) - p + q];
    }
    assert c[q + 6..q + 6 + n] == b[p + 6..p + 6 + n];
    assert c[q] == b[p] && c[q + 1] == b[p + 1] && c[q + 2] == b[p + 2] && c[q + 3] == b[p + 3];
  }

  // ---- appending ----

  predicate Storable(e: Entry)
  {
    e.inode < WORD && |e.name| <= NAME_MAX && 0 !in e.name
  }

  /** The bytes create_file stores for one entry; the rest of the record is padding. The length field has 8
      bits, and as many characters as it says are copied. */
  function RecordBytes(e: Entry): (x: seq<byte>)
    requires e.inode < WORD
    ensures |x| == 7 + |e.name| % 0x100
  {
    var n := |e.name| % 0x100;
    LE32(e.inode) + [n, MinRec(n)] + e.name[..n] + [0]
  }

  lemma {:induction false} StoredRecord(c: seq<byte>, at: nat, e: Entry)
    requires Storable(e) && at + MinRec(|e.name|) <= |c| && at + 7 + |e.name| <= |c|
    requires c[at..at + 7 + |e.name|] == RecordBytes(e)
    ensures GoodRecord(c, at) && EntryAt(c, at) == e
    ensures c[at + 4] == |e.name| && c[at + 5] == MinRec(|e.name|)
  {
    hide MinRec, LE32, U32;
    var x, n := RecordBytes(e), |e.name|;
    RecordLengthFits(n);
    assert forall k :: at <= k < at + 7 + n ==> c[k] == x[k - at];
    assert n % 0x100 == n && e.name[..n] == e.name;
    assert x[4] == n && x[5] == MinRec(n) && x[6 + n] == 0;
    assert forall k :: 0 <= k < n ==> x[6 + k] == e.name[k] != 0;
    assert forall k :: at + 6 <= k < at + 6 + n ==> c[k] == e.name[k - at - 6] != 0;
    assert c[at + 6..at + 6 + n] == e.name;
    assert c[at..at + 4] == x[..4] == LE32(e.inode);
    WordRoundTrip(c, at, e.inode);
  }

  /** `c` is `b` with the last record from `p` on cut to its minimal length and, behind it, the record of
      `e` and zeros up to the end of the block. */
  ghost predicate AppendedTo(b: seq<byte>, p: nat, e: Entry, c: seq<byte>)
    requires Chain(b, p) && b[p + 5] != 0 && Storable(e)
  {
    var l := LastAt(b, p);
    var at := l + MinRec(b[l + 4]);
    var end := at + 7 + |e.name|;
    && |c| == |b| && end <= |c|
    && (forall k :: 0 <= k < at && k < |b| ==> c[k] == if k == l + 5 then MinRec(b[l + 4]) else b[k])
    && c[at..end] == RecordBytes(e)
    && (forall k :: end <= k < |c| ==> c[k] == 0)
  }

  /** The new entry goes to the end of the listing, if its record leaves room for the next length byte. */
  lemma {:induction false} AppendKeepsChain(b: seq<byte>, p: nat, e: Entry, c: seq<byte>)
    requires Chain(b, p) && b[p + 5] != 0 && Storable(e) && AppendedTo(b, p, e, c)
    requires p + MinSize(Entries(b, p)) + MinRec(|e.name|) + 6 <= |b|
    ensures Chain(c, p) && Entries(c, p) == Entries(b, p) + [e]
    ensures c[p + 5] != 0
    decreases |b| - p
  {
    hide MinRec, U32, Chain, Entries, MinSize, RecordBytes;
    Unfold(b, p);
    LastEnd(b, p);
    var q := Next(b, p);
    if b[q + 5] == 0 {
      AppendToLast(b, p, e, c);
    } else {
      LastEnd(b, q);
      LastRecord(b, q);
      AppendKeepsChain(b, q, e, c);
      assert c[p + 5] == b[p + 5];
      RecordShift(b, p, c, p);
      Fold(c, p);
    }
  }

  lemma {:induction false} AppendToLast(b: seq<byte>, p: nat, e: Entry, c: seq<byte>)
    requires Chain(b, p) && b[p + 5] != 0 && LastAt(b, p) == p && Storable(e) && AppendedTo(b, p, e, c)
    requires p + MinRec(b[p + 4]) + MinRec(|e.name|) + 6 <= |b|
    ensures Chain(c, p) && Entries(c, p) == Entries(b, p) + [e]
    ensures c[p + 5] != 0
  {
    hide MinRec, U32, Chain, Entries, RecordBytes;
    Unfold(b, p);
    LastRecord(b, p);
    Unfold(b, Next(b, p));
    RecordLengthFits(|e.name|);
    RecordLengthFits(b[p + 4]);
    var at := p + MinRec(b[p + 4]);
    StoredRecord(c, at, e);
    EndHere(c, Next(c, at));
    Fold(c, at);
    TruncatedRecord(b, p, c);
    Fold(c, p);
  }

  lemma {:induction false} EndHere(c: seq<byte>, p: nat)
    requires p + 6 <= |c| && c[p + 5] == 0
    ensures Chain(c, p) && Entries(c, p) == []
  {
  }

  /** Cutting the slack off a record does not change the entry in it. */
  lemma {:induction false} TruncatedRecord(b: seq<byte>, p: nat, c: seq<byte>)
    requires GoodRecord(b, p) && |c| == |b| && p + MinRec(b[p + 4]) <= |c|
    requires c[p + 5] == MinRec(b[p + 4])
    requires forall k :: p <= k < p + MinRec(b[p + 4]) && k != p + 5 ==> c[k] == b[k]
    ensures GoodRecord(c, p) && EntryAt(c, p) == EntryAt(b, p) && c[p + 4] == b[p + 4]
  {
    hide MinRec;
    RecordLengthFits(b[p + 4]);
    assert c[p + 6..p + 6 + b[p + 4]] == b[p + 6..p + 6 + b[p + 4]];
  }

  // ---- looking up and deleting ----

  /** Index of the first entry called `name`; the length of the listing when there is none. */
  function IndexOf(es: seq<Entry>, name: seq<byte>): (k: nat)
    ensures k <= |es|
    ensures k < |es| ==> es[k].name == name
    ensures forall i :: 0 <= i < k ==> es[i].name != name
  {
    if es == [] || es[0].name == name then 0 else 1 + IndexOf(es[1..], name)
  }

  /** The listing without its first entry called `name`. */
  function Without(es: seq<Entry>, name: seq<byte>): seq<Entry>
  {
    if es == [] then [] else if es[0].name == name then es[1..] else [es[0]] + Without(es[1..], name)
  }

  /** Exactly that entry goes, and the others keep their order. */
  lemma {:induction false} WithoutRemovesFirst(es: seq<Entry>, name: seq<byte>)
    ensures var k := IndexOf(es, name);
            Without(es, name) == if k == |es| then es else es[..k] + es[k + 1..]
  {
    if es != [] && es[0].name != name {
      var k := IndexOf(es[1..], name);
      WithoutRemovesFirst(es[1..], name);
      if k < |es[1..]| {
        DropMiddle(es, k);
      } else {
        assert [es[0]] + es[1..] == es;
      }
    }
  }

  lemma {:induction false} DropMiddle<T>(s: seq<T>, k: nat)
    requires k + 1 < |s|
    ensures [s[0]] + (s[1..][..k] + s[1..][k + 1..]) == s[..k + 1] + s[k + 2..]
  {
  }

  lemma {:induction false} IndexStep(e: Entry, es: seq<Entry>, name: seq<byte>)
    ensures IndexOf([e] + es, name) == if e.name == name then 0 else 1 + IndexOf(es, name)
    ensures Without([e] + es, name) == if e.name == name then es else [e] + Without(es, name)
  {
    assert ([e] + es)[1..] == es;
  }

  /** Offset of the first record whose name is `name`; the end of the chain when there is none. */
  function FindAt(b: seq<byte>, p: nat, name: seq<byte>): (q: nat)
    requires Chain(b, p)
    ensures p <= q && q + 6 <= |b| && Chain(b, q)
    decreases |b| - p
  {
    Unfold(b, p);
    if b[p + 5] == 0 || EntryAt(b, p).name == name then p else FindAt(b, Next(b, p), name)
  }

  lemma {:induction false} FindAgrees(b: seq<byte>, p: nat, name: seq<byte>)
    requires Chain(b, p)
    ensures var q, k := FindAt(b, p, name), IndexOf(Entries(b, p), name);
            && (b[q + 5] == 0 <==> k == |Entries(b, p)|)
            && (b[q + 5] != 0 ==> GoodRecord(b, q) && EntryAt(b, q) == Entries(b, p)[k])
    decreases |b| - p
  {
    hide Chain, Entries, U32;
    Unfold(b, p);
    if b[p + 5] != 0 {
      IndexStep(EntryAt(b, p), Entries(b, Next(b, p)), name);
      if EntryAt(b, p).name != name {
        FindAgrees(b, Next(b, p), name);
      }
    }
  }

  /** `c` is what unlink leaves of the block `b` after removing the record at `q`: the rest of the block
      moved down, or, behind the last record, the removed bytes cleared. */
  ghost predicate DeletedFrom(b: seq<byte>, q: nat, c: seq<byte>)
    requires Chain(b, q) && b[q + 5] != 0
  {
    var next := Next(b, q);
    && |c| == |b| && next + 6 <= |b|
    && c[..q] == b[..q]
    && if b[next + 5] != 0 then c[q..q + |b| - next] == b[next..] else c[q..next] == Zeros(next - q)
  }

  lemma {:induction false} DeleteHere(b: seq<byte>, q: nat, c: seq<byte>)
    requires Chain(b, q) && b[q + 5] != 0 && DeletedFrom(b, q, c)
    ensures Next(b, q) + 6 <= |b| && Chain(b, Next(b, q))
    ensures Chain(c, q) && Entries(c, q) == Entries(b, Next(b, q))
  {
    hide Chain, Entries, U32;
    Unfold(b, q);
    var next := Next(b, q);
    if b[next + 5] != 0 {
      forall k | next <= k < |b|
        ensures c[k - next + q] == b[k]
      {
        assert c[q..q + |b| - next][k - next] == b[next..][k - next];
      }
      ChainShift(b, next, c, q);
    } else {
      assert c[q + 5] == c[q..next][5];
      EndHere(c, q);
      EndHere(b, next);
    }
  }

  /** Removing the first record called `name` removes exactly the first such entry of the listing. */
  lemma {:induction false} DeleteKeepsChain(b: seq<byte>, p: nat, name: seq<byte>, c: seq<byte>)
    requires Chain(b, p) && b[FindAt(b, p, name) + 5] != 0 && DeletedFrom(b, FindAt(b, p, name), c)
    ensures Chain(c, p) && Entries(c, p) == Without(Entries(b, p), name)
    decreases |b| - p
  {
    hide Chain, Entries, U32, Without;
    Unfold(b, p);
    var e, rest := EntryAt(b, p), Entries(b, Next(b, p));
    IndexStep(e, rest, name);
    if e.name == name {
      DeleteHere(b, p, c);
    } else {
      DeleteKeepsChain(b, Next(b, p), name, c);
      var q := FindAt(b, p, name);
      assert forall k :: 0 <= k < q ==> c[k] == c[..q][k] == b[..q][k] == b[k];
      RecordShift(b, p, c, p);
      Fold(c, p);
    }
  }

  // ---- the blocks create_file, unlink and mkdir leave behind ----

  /** The stores of create_file stay inside the block. */
  predicate Appendable(b: seq<byte>, e: Entry)
  {
    && Chain(b, 0) && b[5] != 0 && e.inode < WORD
    && MinSize(Entries(b, 0)) + 7 + |e.name| % 0x100 <= |b|
  }

  /** The block after create_file has appended `e`. */
  function Appended(b: seq<byte>, e: Entry): (c: seq<byte>)
    requires Appendable(b, e)
    ensures |c| == |b|
  {
    LastEnd(b, 0);
    LastRecord(b, 0);
    var l := LastAt(b, 0);
    var at := l + MinRec(b[l + 4]);
    Splice(Splice(Splice(b, l + 5, [MinRec(b[l + 4])]), at, Zeros(|b| - at)), at, RecordBytes(e))
  }

  /** Truncate, clear and store, seen byte by byte. */
  lemma {:induction false} SplicedRecord(b: seq<byte>, l: nat, rec: byte, at: nat, x: seq<byte>)
    requires l + 5 < at && at + |x| <= |b|
    ensures var c := Splice(Splice(Splice(b, l + 5, [rec]), at, Zeros(|b| - at)), at, x);
            && |c| == |b|
            && (forall k :: 0 <= k < at ==> c[k] == if k == l + 5 then rec else b[k])
            && c[at..at + |x|] == x
            && (forall k :: at + |x| <= k < |c| ==> c[k] == 0)
  {
    hide Splice;
    ZeroBytes(|b| - at);
    var b1 := Splice(b, l + 5, [rec]);
    var b2 := Splice(b1, at, Zeros(|b| - at));
    var c := Splice(b2, at, x);
    assert c[at..at + |x|] == x;
  }

  lemma {:induction false} AppendedShape(b: seq<byte>, e: Entry)
    requires Appendable(b, e) && Storable(e)
    ensures AppendedTo(b, 0, e, Appended(b, e))
  {
    hide Chain, Entries, MinRec, RecordBytes, Splice, LastAt, MinSize, Zeros, GoodRecord, EntryAt;
    LastEnd(b, 0);
    LastRecord(b, 0);
    var l := LastAt(b, 0);
    RecordAt(b, l);
    RecordLengthFits(b[l + 4]);
    assert |e.name| % 0x100 == |e.name|;
    SplicedRecord(b, l, MinRec(b[l + 4]), l + MinRec(b[l + 4]), RecordBytes(e));
  }

  /** `c` starts like `b` up to `at`, where the record at `l` now ends, and has this header there. */
  ghost predicate Cut(b: seq<byte>, l: nat, at: nat, name: seq<byte>, c: seq<byte>)
  {
    && l + 5 < at && at + 6 <= |b| == |c|
    && (forall k :: 0 <= k < at ==> c[k] == if k == l + 5 then MinRec(b[l + 4]) else b[k])
    && c[at + 4] == |name| % 0x100 && c[at + 5] == MinRec(|name|)
  }

  lemma {:induction false} AppendedFields(b: seq<byte>, e: Entry)
    requires Appendable(b, e)
    ensures Cut(b, LastAt(b, 0), MinSize(Entries(b, 0)), e.name, Appended(b, e))
  {
    hide Chain, Entries, MinRec, Splice, LastAt, MinSize, Zeros, GoodRecord, EntryAt, LE32;
    LastEnd(b, 0);
    LastRecord(b, 0);
    var l := LastAt(b, 0);
    RecordAt(b, l);
    RecordLengthFits(b[l + 4]);
    var at, x := l + MinRec(b[l + 4]), RecordBytes(e);
    SplicedRecord(b, l, MinRec(b[l + 4]), at, x);
    SameMinRec(|e.name|);
    var c := Appended(b, e);
    assert c[at + 4] == c[at..at + |x|][4] && c[at + 5] == c[at..at + |x|][5];
  }

  lemma {:induction false} SameMinRec(n: nat)
    ensures MinRec(n % 0x100) == MinRec(n)
  {
    hide RoundUp;
    var q, r := n / 0x100, n % 0x100;
    if 7 + r < 0x100 {
      assert 6 + n + 1 == 0x100 * q + (7 + r);
    } else {
      assert 6 + n + 1 == 0x100 * (q + 1) + (7 + r - 0x100);
    }
  }

  lemma {:induction false} RecordAt(b: seq<byte>, p: nat)
    requires Chain(b, p) && b[p + 5] != 0
    ensures b[p + 4] <= NAME_MAX
  {
    Unfold(b, p);
  }

  lemma {:induction false} AppendedEntries(b: seq<byte>, e: Entry)
    requires Chain(b, 0) && b[5] != 0 && Storable(e)
    requires MinSize(Entries(b, 0)) + MinRec(|e.name|) + 6 <= |b|
    ensures Appendable(b, e)
    ensures var c := Appended(b, e); Chain(c, 0) && c[5] != 0 && Entries(c, 0) == Entries(b, 0) + [e]
  {
    hide Chain, Entries, MinRec, MinSize, Appended, AppendedTo;
    RecordLengthFits(|e.name|);
    AppendedShape(b, e);
    AppendKeepsChain(b, 0, e, Appended(b, e));
  }

  /** In front of the place where create_file stores, the new block has the same records, whatever was stored. */
  lemma {:induction false} ChainAbove(b: seq<byte>, p: nat, c: seq<byte>)
    requires Chain(b, p) && b[p + 5] != 0 && |c| == |b| && Chain(c, p)
    requires var l := LastAt(b, p);
             forall k :: p <= k < l + MinRec(b[l + 4]) && k < |b| ==> c[k] == if k == l + 5 then MinRec(b[l + 4]) else b[k]
    ensures var at := LastAt(b, p) + MinRec(b[LastAt(b, p) + 4]);
            && Chain(c, at)
            && |Entries(c, p)| == |Entries(b, p)| + |Entries(c, at)|
            && Entries(c, p)[|Entries(b, p)|..] == Entries(c, at)
    decreases |b| - p
  {
    hide MinRec, U32, Chain, Entries, MinSize, EntryAt;
    Unfold(b, p);
    var q := Next(b, p);
    RecordAt(b, p);
    RecordLengthFits(b[p + 4]);
    if b[q + 5] == 0 {
      Unfold(b, q);
      Unfold(c, p);
    } else {
      LastEnd(b, q);
      LastRecord(b, q);
      assert c[p + 5] == b[p + 5];
      Unfold(c, p);
      ChainAbove(b, q, c);
    }
  }

  lemma {:induction false} FirstOfChain(c: seq<byte>, p: nat, es: seq<Entry>)
    requires Chain(c, p) && Entries(c, p) == es && es != []
    ensures p + 6 <= |c| && c[p + 4] == |es[0].name| <= NAME_MAX && p + c[p + 5] + 6 <= |c|
  {
    Unfold(c, p);
    assert EntryAt(c, p) == es[0];
  }

  /** The block create_file leaves lists the old entries and the new one exactly when the name has at most 245
      bytes and the next length byte still lies in the block. */
  lemma {:induction false} AppendedExact(b: seq<byte>, e: Entry)
    requires Appendable(b, e) && 0 !in e.name
    ensures var c := Appended(b, e);
            Chain(c, 0) && Entries(c, 0) == Entries(b, 0) + [e] <==>
            |e.name| <= NAME_MAX && MinSize(Entries(b, 0)) + MinRec(|e.name|) + 6 <= |b|
  {
    hide Chain, Entries, MinRec, MinSize, Appended, U32;
    var c := Appended(b, e);
    if |e.name| <= NAME_MAX && MinSize(Entries(b, 0)) + MinRec(|e.name|) + 6 <= |b| {
      AppendedEntries(b, e);
    } else if Chain(c, 0) && Entries(c, 0) == Entries(b, 0) + [e] {
      AppendedFields(b, e);
      LastEnd(b, 0);
      ChainAbove(b, 0, c);
      var at := MinSize(Entries(b, 0));
      assert (Entries(b, 0) + [e])[|Entries(b, 0)|..] == [e];
      FirstOfChain(c, at, [e]);
    }
  }

  /** The block after unlink has removed the first record called `name`. */
  function Deleted(b: seq<byte>, name: seq<byte>): (c: seq<byte>)
    requires Chain(b, 0)
    ensures |c| == |b|
  {
    var q := FindAt(b, 0, name);
    Unfold(b, q);
    var next := Next(b, q);
    if b[q + 5] == 0 then b else if b[next + 5] != 0 then Splice(b, q, b[next..]) else Splice(b, q, Zeros(b[q + 5]))
  }

  lemma {:induction false} ZeroBytes(n: nat)
    ensures |Zeros(n)| == n && forall k :: 0 <= k < n ==> Zeros(n)[k] == 0
  {
  }

  lemma {:induction false} DeletedShape(b: seq<byte>, name: seq<byte>)
    requires Chain(b, 0) && b[FindAt(b, 0, name) + 5] != 0
    ensures DeletedFrom(b, FindAt(b, 0, name), Deleted(b, name))
  {
    hide Chain, Entries, FindAt, Zeros, Splice, GoodRecord, EntryAt, MinRec;
    var q := FindAt(b, 0, name);
    Unfold(b, q);
    DeletedParts(b, q, Next(b, q), Deleted(b, name));
  }

  lemma {:induction false} DeletedParts(b: seq<byte>, q: nat, next: nat, c: seq<byte>)
    requires q <= next && next + 6 <= |b|
    requires c == if b[next + 5] != 0 then Splice(b, q, b[next..]) else Splice(b, q, Zeros(next - q))
    ensures c[..q] == b[..q]
    ensures if b[next + 5] != 0 then c[q..q + |b| - next] == b[next..] else c[q..next] == Zeros(next - q)
  {
    hide Splice;
    if b[next + 5] != 0 {
      SplicePieces(b, q, b[next..]);
    } else {
      SplicePieces(b, q, Zeros(next - q));
    }
  }

  lemma {:induction false} DeletedEntries(b: seq<byte>, name: seq<byte>)
    requires Chain(b, 0) && b[FindAt(b, 0, name) + 5] != 0
    ensures var c := Deleted(b, name); Chain(c, 0) && Entries(c, 0) == Without(Entries(b, 0), name)
  {
    hide Chain, Entries, FindAt, Without, Deleted, DeletedFrom;
    DeletedShape(b, name);
    DeleteKeepsChain(b, 0, name, Deleted(b, name));
  }

  /** What abyssfs_init and mkdir store at the front of a directory block: "." for the directory itself
      and ".." for the root. The second length is 4096 - 8 cut to 8 bits. */
  function DotRecords(inode: nat): (x: seq<byte>)
    requires inode < WORD
    ensures |x| == 17
  {
    LE32(inode) + [1, 8, DOT, 0] + LE32(1) + [2, (0x1000 as int - 8) % 0x100, DOT, DOT, 0]
  }

  function Dots(inode: nat): seq<Entry>
  {
    [Entry(inode, [DOT]), Entry(1, [DOT, DOT])]
  }

  /** mkdir does not clear the block: the listing is "." and ".." exactly when the byte that happens to be
      the length byte behind them is zero. */
  lemma {:induction false} FreshDirectory(c: seq<byte>, inode: nat)
    requires |c| >= 262 && inode < WORD && c[..17] == DotRecords(inode)
    ensures Chain(c, 0) && Entries(c, 0) == Dots(inode) <==> c[261] == 0
    ensures c[5] == 8
  {
    hide U32, LE32;
    var x := DotRecords(inode);
    assert forall k :: 0 <= k < 17 ==> c[k] == x[k];
    assert x[4] == 1 && x[5] == 8 && x[6] == DOT && x[7] == 0;
    assert x[12] == 2 && x[13] == 248 && x[14] == DOT && x[15] == DOT && x[16] == 0;
    assert c[0..4] == x[..4] == LE32(inode) && c[8..12] == x[8..12] == LE32(1);
    WordRoundTrip(c, 0, inode);
    WordRoundTrip(c, 8, 1);
    assert EntryAt(c, 0) == Entry(inode, [DOT]) && EntryAt(c, 8) == Entry(1, [DOT, DOT]);
    if c[261] == 0 {
      EndHere(c, 256);
      Fold(c, 8);
      Fold(c, 0);
    } else if Chain(c, 0) {
      Unfold(c, 0);
      Unfold(c, 8);
      Unfold(c, 256);
    }
  }
}
