/** The 64-bit block bitmap of abyssfs.c. */
module Bitmap {

  /** `1ULL << i` shifts by a six-bit amount. */
  function Lane(i: nat): (x: bv6)
    requires i < 64
    ensures x as int == i
  {
    i as bv6
  }

  predicate Lit(b: bv64, x: bv6)
  {
    b & (1 << x) != 0
  }

  function SetBit(b: bv64, x: bv6): bv64
  {
    b | (1 << x)
  }

  function ClearBit(b: bv64, x: bv6): bv64
  {
    b & !(1 << x)
  }

  lemma WithSelf(b: bv64, x: bv6)
    ensures Lit(b | (1 << x), x)
  {
  }

  lemma WithOnly(b: bv64, x: bv6, y: bv6)
    requires x != y && Lit(b | (1 << x), y)
    ensures Lit(b, y)
  {
  }

  lemma WithKeeps(b: bv64, x: bv6, y: bv6)
    requires Lit(b, y)
    ensures Lit(b | (1 << x), y)
  {
  }

  lemma WithLit(b: bv64, x: bv6, y: bv6)
    ensures Lit(SetBit(b, x), y) <==> x == y || Lit(b, y)
  {
    if x == y {
      WithSelf(b, x);
    } else if Lit(b | (1 << x), y) {
      WithOnly(b, x, y);
    } else if Lit(b, y) {
      WithKeeps(b, x, y);
    }
  }

  lemma WithoutSelf(b: bv64, x: bv6)
    ensures !Lit(b & !(1 << x), x)
  {
  }

  lemma WithoutOnly(b: bv64, x: bv6, y: bv6)
    requires x != y && Lit(b, y)
    ensures Lit(b & !(1 << x), y)
  {
  }

  lemma WithoutKeeps(b: bv64, x: bv6, y: bv6)
    requires Lit(b & !(1 << x), y)
    ensures Lit(b, y)
  {
  }

  lemma WithoutLit(b: bv64, x: bv6, y: bv6)
    ensures Lit(ClearBit(b, x), y) <==> x != y && Lit(b, y)
  {
    if x == y {
      WithoutSelf(b, x);
    } else if Lit(b & !(1 << x), y) {
      WithoutKeeps(b, x, y);
    } else if Lit(b, y) {
      WithoutOnly(b, x, y);
    }
  }

  // ---- the bitmap as a set of block numbers ----

  predicate Marked(b: bv64, i: nat)
    requires i < 64
  {
    Lit(b, Lane(i))
  }

  function Used(b: bv64): set<nat>
  {
    set i: nat | i < 64 && Marked(b, i)
  }

  /** Setting a bit adds exactly its block. */
  lemma MarkAdds(b: bv64, i: nat)
    requires i < 64
    ensures Used(SetBit(b, Lane(i))) == Used(b) + {i}
  {
    forall j: nat | j < 64
      ensures Marked(SetBit(b, Lane(i)), j) <==> i == j || Marked(b, j)
    {
      WithLit(b, Lane(i), Lane(j));
    }
  }

  /** Clearing a bit removes exactly its block. */
  lemma ClearRemoves(b: bv64, i: nat)
    requires i < 64
    ensures Used(ClearBit(b, Lane(i))) == Used(b) - {i}
  {
    forall j: nat | j < 64
      ensures Marked(ClearBit(b, Lane(i)), j) <==> i != j && Marked(b, j)
    {
      WithoutLit(b, Lane(i), Lane(j));
    }
  }

  lemma NothingMarked()
    ensures Used(0) == {}
  {
    forall x: bv6
      ensures !Lit(0, x)
    {
    }
  }
}
