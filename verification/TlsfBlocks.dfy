/** Splitting, merging and re-flagging blocks (system/tlsf.c), as functions on the block map.
    For each of them: the physical structure and the pools survive, and memory words changed the way
    the code changes them store the new map and leave every other allocation alone. */
module TlsfBlocks {
  import opened Bits
  import opened TlsfHeap

  // ------------------------------------------------------------------ geometry

  /** A block lies, with its successor, inside one pool, and its successor starts no pool. */
  lemma BlockInPool(H: Blocks, pools: set<Pool>, ctl: int, b: int) returns (p: Pool)
    requires Shape(H, pools, ctl) && b in H && H[b].n > 0
    ensures p in pools && p.first <= b && Next(H, b) <= p.last <= p.first + 0x1000_0000
    ensures forall q :: q in pools ==> q.first != Next(H, b)
  {
    assert InSome(H, pools, b);
    p :| p in pools && p.first <= b <= p.last && (H[b].n == 0 ==> b == p.last);
    assert PoolOk(H, p);
    forall q | q in pools ensures q.first != Next(H, b) { assert PoolOk(H, q); }
  }

  /** Re-flagging blocks other than pool starts keeps the pools. */
  lemma PoolsSame(H: Blocks, H': Blocks, pools: set<Pool>, X: set<int>)
    requires PoolsOk(H, pools) && H'.Keys == H.Keys
    requires forall b :: b in H ==> H'[b].n == H[b].n
    requires forall b :: b in H && b !in X ==> H'[b].prevFree == H[b].prevFree
    requires forall p :: p in pools ==> p.first !in X
    ensures PoolsOk(H', pools)
  {
    forall p | p in pools ensures PoolOk(H', p) { assert PoolOk(H, p); }
    forall b | b in H' ensures InSome(H', pools, b) { assert InSome(H, pools, b); }
  }

  // ------------------------------------------------------------------ changing a flag

  /** Sets the "free" flag of `b`, and with it the flag its successor keeps about it. */
  ghost function Flagged(H: Blocks, b: int, free: bool): Blocks
    requires b in H && Next(H, b) in H
  {
    H[b := H[b].(free := free)][Next(H, b) := H[Next(H, b)].(prevFree := free)]
  }

  lemma FlaggedBlock(H: Blocks, ctl: int, b: int, free: bool, q: int)
    requires b in H && H[b].n > 0 && Next(H, b) in H && Apart(H) && q in H
    requires BlockOk(H, ctl, b) && BlockOk(H, ctl, q)
    ensures BlockOk(Flagged(H, b, free), ctl, q)
  {}

  lemma FlaggedApart(H: Blocks, b: int, free: bool)
    requires b in H && Next(H, b) in H && Apart(H)
    ensures Apart(Flagged(H, b, free))
  {}

  lemma FlaggedPools(H: Blocks, pools: set<Pool>, ctl: int, b: int, free: bool)
    requires Shape(H, pools, ctl) && b in H && H[b].n > 0 && Next(H, b) in H
    ensures PoolsOk(Flagged(H, b, free), pools)
  {
    var p := BlockInPool(H, pools, ctl, b);
    PoolsSame(H, Flagged(H, b, free), pools, {Next(H, b)});
  }

  lemma FlaggedShape(H: Blocks, pools: set<Pool>, ctl: int, b: int, free: bool)
    requires Shape(H, pools, ctl) && b in H && H[b].n > 0 && Next(H, b) in H
    ensures Shape(Flagged(H, b, free), pools, ctl)
  {
    var H' := Flagged(H, b, free);
    forall q | q in H' ensures BlockOk(H', ctl, q) {
      assert BlockOk(H, ctl, b) && BlockOk(H, ctl, q);
      FlaggedBlock(H, ctl, b, free, q);
    }
    FlaggedApart(H, b, free);
    FlaggedPools(H, pools, ctl, b, free);
  }

  /** The words block_mark_as_free and block_mark_as_used write. */
  ghost predicate FlagWrites(m: seq<Word>, H: Blocks, m': seq<Word>, b: int, free: bool)
    requires b in H && Next(H, b) in H
  {
    var nx := Next(H, b);
    && ChangesOnly(m, m', {b + 1, nx, nx + 1})
    && At(m', b + 1) == Header(Flagged(H, b, free)[b]) && At(m', nx + 1) == Header(Flagged(H, b, free)[nx])
    && (free ==> At(m', nx) == b)
  }

  lemma FlaggedStoredAt(m: seq<Word>, H: Blocks, m': seq<Word>, ctl: int, b: int, free: bool, q: int)
    requires b in H && H[b].n > 0 && Next(H, b) in H && Apart(H) && q in H
    requires BlockOk(H, ctl, Next(H, b)) && BlockOk(H, ctl, q) && StoredAt(m, H, q)
    requires H[q].prevFree ==> BlockOk(H, ctl, At(m, q))
    requires FlagWrites(m, H, m', b, free)
    ensures StoredAt(m', Flagged(H, b, free), q)
  {
    var nx := Next(H, b);
    if q != nx && H[q].prevFree {
      var c := At(m, q);
      assert q != nx + 1;
    }
  }

  lemma FlaggedStored(m: seq<Word>, H: Blocks, m': seq<Word>, ctl: int, b: int, free: bool)
    requires BlocksOk(H, ctl) && Stored(m, H) && b in H && H[b].n > 0 && Next(H, b) in H
    requires FlagWrites(m, H, m', b, free)
    ensures Stored(m', Flagged(H, b, free))
    ensures SameAllocs(m, H, m', Flagged(H, b, free), {b})
  {
    var H' := Flagged(H, b, free);
    forall q | q in H' ensures StoredAt(m', H', q) {
      assert StoredAt(m, H, q) && BlockOk(H, ctl, q) && BlockOk(H, ctl, Next(H, b));
      if H[q].prevFree { assert BlockOk(H, ctl, At(m, q)); }
      FlaggedStoredAt(m, H, m', ctl, b, free, q);
    }
    forall u | u in H && u != b && H[u].Used() ensures SamePayload(m, H, m', u) {}
  }

  // ------------------------------------------------------------------ splitting

  /** Cuts block `b` after `s` payload words; the remainder is free. */
  ghost function Split(H: Blocks, b: int, s: int): Blocks
    requires b in H && Next(H, b) in H
  {
    var nx := Next(H, b);
    H[b := H[b].(n := s)][b + 1 + s := Block(H[b].n - s - 1, true, H[b].free)][nx := H[nx].(prevFree := true)]
  }

  ghost predicate CanSplit(H: Blocks, ctl: int, b: int, s: int) {
    b in H && Next(H, b) in H && 3 <= s && s + 4 <= H[b].n && BlockOk(H, ctl, b)
  }

  lemma SplitBlock(H: Blocks, ctl: int, b: int, s: int, q: int)
    requires CanSplit(H, ctl, b, s) && Apart(H) && q in Split(H, b, s)
    requires q in H ==> BlockOk(H, ctl, q)
    ensures BlockOk(Split(H, b, s), ctl, q)
  {
    assert b + 1 + s !in H;
  }

  lemma SplitApart(H: Blocks, ctl: int, b: int, s: int)
    requires CanSplit(H, ctl, b, s) && Apart(H)
    ensures Apart(Split(H, b, s))
  {}

  lemma SplitPools(H: Blocks, pools: set<Pool>, ctl: int, b: int, s: int)
    requires CanSplit(H, ctl, b, s) && Shape(H, pools, ctl)
    ensures PoolsOk(Split(H, b, s), pools)
  {
    var H' := Split(H, b, s);
    var p0 := BlockInPool(H, pools, ctl, b);
    forall p | p in pools ensures PoolOk(H', p) { assert PoolOk(H, p); }
    forall q | q in H' ensures InSome(H', pools, q) {
      if q in H { assert InSome(H, pools, q); } else { assert p0 in pools && p0.first <= q <= p0.last; }
    }
  }

  lemma SplitShape(H: Blocks, pools: set<Pool>, ctl: int, b: int, s: int)
    requires Shape(H, pools, ctl) && CanSplit(H, ctl, b, s)
    ensures Shape(Split(H, b, s), pools, ctl)
  {
    var H' := Split(H, b, s);
    forall q | q in H' ensures BlockOk(H', ctl, q) {
      if q in H { assert BlockOk(H, ctl, q); }
      SplitBlock(H, ctl, b, s, q);
    }
    SplitApart(H, ctl, b, s);
    SplitPools(H, pools, ctl, b, s);
  }

  /** The words block_split and its callers write. */
  ghost predicate SplitWrites(m: seq<Word>, H: Blocks, m': seq<Word>, b: int, s: int)
    requires b in H && Next(H, b) in H
  {
    var nx, r, H' := Next(H, b), b + 1 + s, Split(H, b, s);
    && ChangesOnly(m, m', {b + 1, r, r + 1, nx, nx + 1})
    && At(m', b + 1) == Header(H'[b]) && At(m', r + 1) == Header(H'[r]) && At(m', nx + 1) == Header(H'[nx])
    && At(m', nx) == r && (H[b].free ==> At(m', r) == b)
  }

  lemma SplitStoredAt(m: seq<Word>, H: Blocks, m': seq<Word>, ctl: int, b: int, s: int, q: int)
    requires CanSplit(H, ctl, b, s) && Apart(H) && q in Split(H, b, s)
    requires StoredAt(m, H, b)
    requires q in H ==> BlockOk(H, ctl, q) && StoredAt(m, H, q) && (H[q].prevFree ==> BlockOk(H, ctl, At(m, q)))
    requires BlockOk(H, ctl, Next(H, b)) && SplitWrites(m, H, m', b, s)
    ensures StoredAt(m', Split(H, b, s), q)
  {
    var nx, r := Next(H, b), b + 1 + s;
    assert r !in H;
    if q in H && q != nx && H[q].prevFree {
      assert q != nx + 1;
      assert At(m', q) == At(m, q);
    }
  }

  lemma SplitStored(m: seq<Word>, H: Blocks, m': seq<Word>, ctl: int, b: int, s: int)
    requires BlocksOk(H, ctl) && Stored(m, H) && CanSplit(H, ctl, b, s)
    requires SplitWrites(m, H, m', b, s)
    ensures Stored(m', Split(H, b, s))
    ensures SameAllocs(m, H, m', Split(H, b, s), {b})
  {
    var H' := Split(H, b, s);
    assert BlockOk(H, ctl, Next(H, b)) && StoredAt(m, H, b);
    forall q | q in H' ensures StoredAt(m', H', q) {
      if q in H {
        assert StoredAt(m, H, q) && BlockOk(H, ctl, q);
        if H[q].prevFree { assert BlockOk(H, ctl, At(m, q)); }
      }
      SplitStoredAt(m, H, m', ctl, b, s, q);
    }
    assert b + 1 + s !in H;
    forall u | u in H && u != b && H[u].Used() ensures SamePayload(m, H, m', u) {}
  }

  // ------------------------------------------------------------------ merging

  /** Gives the storage of the free block `b` to its predecessor `p`. */
  ghost function Absorb(H: Blocks, p: int, b: int): Blocks
    requires p in H && b in H
  {
    (H - {b})[p := H[p].(n := H[p].n + H[b].n + 1)]
  }

  ghost predicate CanAbsorb(H: Blocks, ctl: int, p: int, b: int) {
    && p in H && b in H && b == Next(H, p) && H[p].n > 0 && H[p].free && H[b].n > 0 && H[b].free
    && Next(H, b) in H && BlockOk(H, ctl, p) && BlockOk(H, ctl, b)
  }

  lemma AbsorbBlock(H: Blocks, ctl: int, p: int, b: int, q: int)
    requires CanAbsorb(H, ctl, p, b) && Apart(H) && q in H && q != b && BlockOk(H, ctl, q)
    requires H[p].n + H[b].n + 1 < 0x1000_0000
    ensures BlockOk(Absorb(H, p, b), ctl, q)
  {}

  lemma AbsorbApart(H: Blocks, ctl: int, p: int, b: int)
    requires CanAbsorb(H, ctl, p, b) && Apart(H)
    ensures Apart(Absorb(H, p, b))
  {}

  lemma AbsorbBound(H: Blocks, pools: set<Pool>, ctl: int, p: int, b: int)
    requires Shape(H, pools, ctl) && p in H && b in H && b == Next(H, p) && H[p].n > 0 && H[b].n > 0
    ensures H[p].n + H[b].n + 1 < 0x1000_0000
  {
    var pool := BlockInPool(H, pools, ctl, p);
    var pool' := BlockInPool(H, pools, ctl, b);
    assert pool == pool' by { assert PoolOk(H, pool) && PoolOk(H, pool'); }
  }

  lemma AbsorbShape(H: Blocks, pools: set<Pool>, ctl: int, p: int, b: int)
    requires Shape(H, pools, ctl) && CanAbsorb(H, ctl, p, b)
    ensures Shape(Absorb(H, p, b), pools, ctl)
  {
    var H' := Absorb(H, p, b);
    AbsorbBound(H, pools, ctl, p, b);
    forall q | q in H' ensures BlockOk(H', ctl, q) {
      assert BlockOk(H, ctl, q);
      AbsorbBlock(H, ctl, p, b, q);
    }
    AbsorbApart(H, ctl, p, b);
    AbsorbPools(H, pools, ctl, p, b);
  }

  lemma AbsorbPools(H: Blocks, pools: set<Pool>, ctl: int, p: int, b: int)
    requires Shape(H, pools, ctl) && CanAbsorb(H, ctl, p, b)
    ensures PoolsOk(Absorb(H, p, b), pools)
  {
    var H' := Absorb(H, p, b);
    forall pool | pool in pools ensures PoolOk(H', pool) { assert PoolOk(H, pool); }
    forall q | q in H' ensures InSome(H', pools, q) { assert InSome(H, pools, q); }
  }

  /** The words block_absorb writes. */
  ghost predicate AbsorbWrites(m: seq<Word>, H: Blocks, m': seq<Word>, p: int, b: int)
    requires p in H && b in H
  {
    && ChangesOnly(m, m', {p + 1, Next(H, b)})
    && At(m', p + 1) == At(m, p + 1) + 4 * (H[b].n + 1) && At(m', Next(H, b)) == p
  }

  lemma AbsorbStored(m: seq<Word>, H: Blocks, m': seq<Word>, ctl: int, p: int, b: int)
    requires BlocksOk(H, ctl) && Stored(m, H) && CanAbsorb(H, ctl, p, b)
    requires AbsorbWrites(m, H, m', p, b)
    ensures Stored(m', Absorb(H, p, b))
    ensures SameAllocs(m, H, m', Absorb(H, p, b), {})
  {
    var H' := Absorb(H, p, b);
    assert StoredAt(m, H, p) && StoredAt(m, H, b);
    forall q | q in H' ensures StoredAt(m', H', q) {
      assert StoredAt(m, H, q) && BlockOk(H, ctl, q);
      if H[q].prevFree { assert BlockOk(H, ctl, At(m, q)); }
    }
    forall u | u in H && H[u].Used() ensures SamePayload(m, H, m', u) {}
  }
}
