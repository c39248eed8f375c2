/** Growing a used block into a free successor (system/tlsf.c, the in-place branch of tlsf_realloc):
    block_merge_next and block_mark_as_used applied to a block that was never flagged free. The
    result is the same heap that freeing, merging and re-using the block would have given. */
module TlsfGrow {
  import opened Bits
  import opened TlsfHeap
  import opened TlsfBlocks
  import opened TlsfFrames
  import opened TlsfSteps

  /** The block map afterwards. */
  ghost function Grown(H: Blocks, b: int): Blocks
    requires b in H && Next(H, b) in H && Next(H, Next(H, b)) in H && H[b].n >= 0 && H[Next(H, b)].n > 0
  {
    var nx := Next(H, b);
    (H - {nx})[b := Block(H[b].n + H[nx].n + 1, false, H[b].prevFree)]
              [Next(H, nx) := H[Next(H, nx)].(prevFree := false)]
  }

  ghost predicate CanGrow(m: seq<Word>, heads: seq<int>, H: Blocks, F: Members, pools: set<Pool>, ctl: int, b: int) {
    && b in H && H[b].Used() && Next(H, b) in H && H[Next(H, b)].free && |m| <= 0x4000_0000
    && HeapOk(m, heads, H, F, {Next(H, b)}, pools, ctl)
  }

  /** Memory after block_absorb and block_mark_as_used. */
  ghost function GrownMem(m: seq<Word>, b: int, nx: int): seq<Word>
    requires AbsorbRoom(m, b, nx) && FlagRoom(AbsorbMem(m, b, nx), b)
  {
    FlagMem(AbsorbMem(m, b, nx), b, false)
  }

  lemma GrowReady(m: seq<Word>, heads: seq<int>, H: Blocks, F: Members, pools: set<Pool>, ctl: int, b: int)
    requires CanGrow(m, heads, H, F, pools, ctl, b)
    ensures 0 < b && H[b].n >= 3 && H[Next(H, b)].n >= 3 && Next(H, Next(H, b)) in H && Next(H, Next(H, b)) + 1 < |m|
    ensures AbsorbRoom(m, b, Next(H, b)) && FlagRoom(AbsorbMem(m, b, Next(H, b)), b)
    ensures m[b + 1] == Header(H[b]) && m[Next(H, b) + 1] / 4 == H[Next(H, b)].n
    ensures H[b].n + H[Next(H, b)].n + 1 < 0x1000_0000
  {
    ReadHeader(m, H, ctl, b);
    ReadHeader(m, H, ctl, Next(H, b));
    ReadHeader(m, H, ctl, Next(H, Next(H, b)));
    AbsorbReady(m, H, ctl, b, Next(H, b));
    AbsorbBound(H, pools, ctl, b, Next(H, b));
  }

  /** The map after flagging the block free and merging. */
  ghost function Merged(H: Blocks, b: int): Blocks
    requires b in H && Next(H, b) in H
  {
    Absorb(Flagged(H, b, true), b, Next(H, b))
  }

  lemma GrowMerged(m: seq<Word>, heads: seq<int>, H: Blocks, F: Members, pools: set<Pool>, ctl: int, b: int)
    returns (v: seq<Word>)
    requires CanGrow(m, heads, H, F, pools, ctl, b)
    ensures |v| == |m| && b in Merged(H, b) && Merged(H, b)[b].n > 0 && Next(H, Next(H, b)) in H
    ensures HeapOk(v, heads, Merged(H, b), F, {b}, pools, ctl) && SameAllocs(m, H, v, Merged(H, b), {b})
    ensures var nx := Next(H, b); ChangesOnly(m, v, {b + 1, nx, nx + 1, Next(H, nx)})
  {
    GrowReady(m, heads, H, F, pools, ctl, b);
    var nx := Next(H, b);
    FlagWords(m, H, ctl, b, true);
    var v1, H1 := FlagMem(m, b, true), Flagged(H, b, true);
    FlagStep(m, heads, H, F, {nx}, pools, ctl, v1, b, true);
    assert {nx} + {b} == {b, nx};
    AbsorbReady(v1, H1, ctl, b, nx);
    v := AbsorbMem(v1, b, nx);
    AbsorbStep(v1, heads, H1, F, {b, nx}, pools, ctl, v, b, nx);
    assert {b, nx} - {nx} == {b};
    SameAllocsTrans(m, H, v1, H1, v, Merged(H, b), {b});
  }

  /** Flagging the block free, merging, and flagging it used again. */
  lemma GrowVirtual(m: seq<Word>, heads: seq<int>, H: Blocks, F: Members, pools: set<Pool>, ctl: int, b: int)
    returns (v: seq<Word>)
    requires CanGrow(m, heads, H, F, pools, ctl, b)
    ensures |v| == |m| && Next(H, Next(H, b)) in H && H[Next(H, b)].n > 0
    ensures HeapOk(v, heads, Grown(H, b), F, {}, pools, ctl) && SameAllocs(m, H, v, Grown(H, b), {b})
    ensures var nx := Next(H, b);
            ChangesOnly(m, v, {b + 1, nx, nx + 1, Next(H, nx), Next(H, nx) + 1})
  {
    GrowReady(m, heads, H, F, pools, ctl, b);
    var v2 := GrowMerged(m, heads, H, F, pools, ctl, b);
    v := Unflagged(v2, heads, H, F, pools, ctl, b);
    SameAllocsTrans(m, H, v2, Merged(H, b), v, Grown(H, b), {b});
  }

  lemma Unflagged(v2: seq<Word>, heads: seq<int>, H: Blocks, F: Members, pools: set<Pool>, ctl: int, b: int)
    returns (v: seq<Word>)
    requires b in H && Next(H, b) in H && Next(H, Next(H, b)) in H && H[b].n >= 0 && H[Next(H, b)].n > 0 && !H[b].free
    requires b in Merged(H, b) && Merged(H, b)[b].n > 0 && |v2| <= 0x4000_0000
    requires HeapOk(v2, heads, Merged(H, b), F, {b}, pools, ctl)
    ensures |v| == |v2| && HeapOk(v, heads, Grown(H, b), F, {}, pools, ctl)
    ensures SameAllocs(v2, Merged(H, b), v, Grown(H, b), {b})
    ensures ChangesOnly(v2, v, {b + 1, Next(H, Next(H, b)), Next(H, Next(H, b)) + 1})
  {
    GrownIs(H, b);
    FlagWords(v2, Merged(H, b), ctl, b, false);
    v := FlagMem(v2, b, false);
    FlagStep(v2, heads, Merged(H, b), F, {b}, pools, ctl, v, b, false);
    assert {b} - {b} == {};
  }

  lemma GrownIs(H: Blocks, b: int)
    requires b in H && Next(H, b) in H && Next(H, Next(H, b)) in H && H[b].n >= 0 && H[Next(H, b)].n > 0 && !H[b].free
    ensures var H2 := Absorb(Flagged(H, b, true), b, Next(H, b));
      Next(H2, b) in H2 && Flagged(H2, b, false) == Grown(H, b)
  {}

  lemma GrownHeader(k: Block, more: int, w: Word)
    requires 0 <= k.n && 0 <= more && k.n + more + 1 < 0x1000_0000 && !k.free && w == Header(k)
    ensures (w + more * 4 + 4) / 4 == k.n + more + 1 && w / 4 == k.n
    ensures NoFree(w + more * 4 + 4) == Header(Block(k.n + more + 1, false, k.prevFree))
  {
    HeaderFlags(k, w);
    HeaderFlags(k.(n := k.n + more + 1), w + more * 4 + 4);
  }

  /** The two steps of the short cut, word by word. */
  lemma GrownMemIs(m: seq<Word>, b: int, nx: int, n: int, more: int)
    requires AbsorbRoom(m, b, nx) && m[b + 1] / 4 == n && m[nx + 1] / 4 == more && nx == b + 1 + n && 0 < n && 0 < more
    requires (m[b + 1] + more * 4 + 4) / 4 == n + more + 1 && b + 3 + n + more < |m|
    ensures FlagRoom(AbsorbMem(m, b, nx), b)
    ensures var nx2 := nx + 1 + more;
            && ChangesOnly(m, GrownMem(m, b, nx), {b + 1, nx2, nx2 + 1})
            && At(GrownMem(m, b, nx), b + 1) == NoFree(m[b + 1] + more * 4 + 4)
            && At(GrownMem(m, b, nx), nx2 + 1) == NoPrevFree(m[nx2 + 1])
  {}

  /** The words that the short cut writes are the headers of the grown map. */
  lemma GrownWords(m: seq<Word>, heads: seq<int>, H: Blocks, F: Members, pools: set<Pool>, ctl: int, b: int)
    requires CanGrow(m, heads, H, F, pools, ctl, b)
    ensures var nx := Next(H, b);
            && nx in H && H[nx].n > 0 && Next(H, nx) in H && AbsorbRoom(m, b, nx) && FlagRoom(AbsorbMem(m, b, nx), b)
            && var m' := GrownMem(m, b, nx); var H' := Grown(H, b);
               && ChangesOnly(m, m', {b + 1, Next(H, nx), Next(H, nx) + 1})
               && At(m', b + 1) == Header(H'[b]) && At(m', Next(H, nx) + 1) == Header(H'[Next(H, nx)])
  {
    GrowReady(m, heads, H, F, pools, ctl, b);
    var nx := Next(H, b);
    var nx2 := Next(H, nx);
    ReadHeader(m, H, ctl, nx2);
    HeaderFlags(H[nx2], m[nx2 + 1]);
    GrownHeader(H[b], H[nx].n, m[b + 1]);
    GrownMemIs(m, b, nx, H[b].n, H[nx].n);
  }

  /** The heap after growing in place; the bytes the block already held stay where they are. */
  lemma GrowStep(m: seq<Word>, heads: seq<int>, H: Blocks, F: Members, pools: set<Pool>, ctl: int, b: int)
    requires CanGrow(m, heads, H, F, pools, ctl, b) && Coalesced(H, F)
    ensures var nx := Next(H, b);
            && nx in H && H[nx].n > 0 && Next(H, nx) in H && AbsorbRoom(m, b, nx) && FlagRoom(AbsorbMem(m, b, nx), b)
            && var m' := GrownMem(m, b, nx); var H' := Grown(H, b);
               && HeapOk(m', heads, H', F, {}, pools, ctl) && Coalesced(H', F) && SameAllocs(m, H, m', H', {b})
               && SamePayload(m, H, m', b) && b in H' && H'[b].Used() && Next(H', b) in H'
  {
    GrowReady(m, heads, H, F, pools, ctl, b);
    GrownWords(m, heads, H, F, pools, ctl, b);
    var nx, H' := Next(H, b), Grown(H, b);
    var m' := GrownMem(m, b, nx);
    var v := GrowVirtual(m, heads, H, F, pools, ctl, b);
    ReadHeader(v, H', ctl, b);
    ReadHeader(v, H', ctl, Next(H, nx));
    PayloadWrite(v, heads, H', F, {}, pools, ctl, m', b);
    SameAllocsTrans(m, H, v, H', m', H', {b});
    GrownCoalesced(H, F, b);
  }

  lemma GrownCoalesced(H: Blocks, F: Members, b: int)
    requires Coalesced(H, F) && b in H && Next(H, b) in H && Next(H, Next(H, b)) in H && b !in F && Next(H, b) !in F
    requires H[b].n >= 0 && H[Next(H, b)].n > 0
    ensures Coalesced(Grown(H, b), F)
  {}
}
