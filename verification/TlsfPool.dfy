/** Regions of memory given to the allocator (system/tlsf.c, tlsf_add_pool): the new free block and its
    zero-size sentinel join the heap without touching anything that is already there. */
module TlsfPool {
  import opened Bits
  import opened TlsfMapping
  import opened TlsfAlign
  import opened TlsfHeap
  import opened TlsfFrames
  import opened TlsfSteps

  /** The size of the free block a region of `bytes` bytes starts as. */
  function PoolBytes(bytes: Word): Word { Wrap(bytes - 8) / 4 * 4 }

  predicate PoolAccepts(bytes: Word) { BLOCK_SIZE_MIN <= PoolBytes(bytes) <= BLOCK_SIZE_MAX }

  predicate Accepted(addr: Word, bytes: Word) { addr % 4 == 0 && PoolAccepts(bytes) }

  function PoolAt(addr: Word, bytes: Word): Pool {
    Pool(addr / 4 - 1, addr / 4 + PoolBytes(bytes) / 4)
  }

  /** The region lies in memory, not at address zero, and clear of the control structure and of every pool. */
  predicate PoolRegion(words: nat, ctl: int, pools: set<Pool>, addr: Word, bytes: Word) {
    && 8 <= addr && addr + bytes <= 4 * words
    && (4 * (ctl + CONTROL_WORDS) <= addr || addr + bytes <= 4 * ctl)
    && forall p :: p in pools ==> addr + bytes <= 4 * (p.first + 1) || 4 * (p.last + 2) <= addr
  }

  lemma EmptyHeap(m: seq<Word>, heads: seq<int>, ctl: int)
    requires |heads| == CLASSES && 0 < ctl && ctl + CONTROL_WORDS <= |m|
    requires forall c :: 0 <= c < CLASSES ==> heads[c] == ctl
    ensures HeapOk(m, heads, map[], map[], {}, {}, ctl) && Coalesced(map[], map[])
  {
    var F: Members := map[];
    forall c | 0 <= c < CLASSES ensures HeadOk(m, heads, F, ctl, c) {}
  }

  /** The block map with a pool of one free block of `n` words at `b`. */
  ghost function WithPool(H: Blocks, b: int, n: int): Blocks {
    H[b := Block(n, true, false)][b + 1 + n := Block(0, false, true)]
  }

  ghost predicate Clear(H: Blocks, pools: set<Pool>, ctl: int, b: int, n: int) {
    && 0 < b && 3 <= n < 0x1000_0000
    && (ctl + CONTROL_WORDS <= b + 1 || b + 2 + n < ctl)
    && forall p :: p in pools ==> b + 2 + n <= p.first || p.last + 1 <= b
  }

  /** Blocks of other pools end before the region or start after it. */
  lemma ClearOfBlocks(H: Blocks, pools: set<Pool>, ctl: int, b: int, n: int, q: int)
    requires Shape(H, pools, ctl) && Clear(H, pools, ctl, b, n) && q in H
    ensures (q + 1 <= b && Next(H, q) <= b) || b + 2 + n <= q
    ensures q + 1 <= b ==> H[q].n == 0 || Next(H, q) < b
  {
    assert InSome(H, pools, q) && BlockOk(H, ctl, q);
    var p :| p in pools && p.first <= q <= p.last && (H[q].n == 0 ==> q == p.last);
    assert PoolOk(H, p);
  }

  lemma PoolKeys(H: Blocks, pools: set<Pool>, ctl: int, b: int, n: int)
    requires Shape(H, pools, ctl) && Clear(H, pools, ctl, b, n)
    ensures b !in H && b + 1 + n !in H
  {
    if b in H { ClearOfBlocks(H, pools, ctl, b, n, b); }
    if b + 1 + n in H { ClearOfBlocks(H, pools, ctl, b, n, b + 1 + n); }
  }

  lemma PoolBlock(H: Blocks, pools: set<Pool>, ctl: int, b: int, n: int, q: int)
    requires Shape(H, pools, ctl) && Clear(H, pools, ctl, b, n) && b !in H && b + 1 + n !in H && q in WithPool(H, b, n)
    ensures BlockOk(WithPool(H, b, n), ctl, q)
  {
    if q in H { assert BlockOk(H, ctl, q); ClearOfBlocks(H, pools, ctl, b, n, q); }
  }

  lemma PoolApart(H: Blocks, pools: set<Pool>, ctl: int, b: int, n: int)
    requires Shape(H, pools, ctl) && Clear(H, pools, ctl, b, n) && b !in H && b + 1 + n !in H
    ensures Apart(WithPool(H, b, n))
  {
    var H' := WithPool(H, b, n);
    forall p, q | p in H' && q in H' && p < q ensures Next(H', p) <= q {
      if p in H { ClearOfBlocks(H, pools, ctl, b, n, p); }
      if q in H { ClearOfBlocks(H, pools, ctl, b, n, q); }
    }
  }

  lemma PoolBlocks(H: Blocks, pools: set<Pool>, ctl: int, b: int, n: int)
    requires Shape(H, pools, ctl) && Clear(H, pools, ctl, b, n)
    ensures b !in H && b + 1 + n !in H && BlocksOk(WithPool(H, b, n), ctl)
  {
    PoolKeys(H, pools, ctl, b, n);
    PoolApart(H, pools, ctl, b, n);
    var H' := WithPool(H, b, n);
    forall q | q in H' ensures BlockOk(H', ctl, q) { PoolBlock(H, pools, ctl, b, n, q); }
  }

  lemma PoolPools(H: Blocks, pools: set<Pool>, ctl: int, b: int, n: int)
    requires Shape(H, pools, ctl) && Clear(H, pools, ctl, b, n) && b !in H && b + 1 + n !in H
    ensures PoolsOk(WithPool(H, b, n), pools + {Pool(b, b + 1 + n)})
  {
    var H', P, pools' := WithPool(H, b, n), Pool(b, b + 1 + n), pools + {Pool(b, b + 1 + n)};
    forall p | p in pools' ensures PoolOk(H', p) { if p in pools { assert PoolOk(H, p); } }
    forall p, q | p in pools' && q in pools' && p != q ensures p.last < q.first || q.last < p.first {
      if p in pools { assert PoolOk(H, p); }
      if q in pools { assert PoolOk(H, q); }
    }
    forall q | q in H' ensures InSome(H', pools', q) {
      if q in H { assert InSome(H, pools, q); } else { assert P in pools' && P.first <= q <= P.last; }
    }
  }

  ghost predicate PoolWrites(m: seq<Word>, H: Blocks, m': seq<Word>, b: int, n: int) {
    && ChangesOnly(m, m', {b + 1, b + 1 + n, b + 2 + n})
    && At(m', b + 1) == 4 * n + 1 && At(m', b + 1 + n) == b && At(m', b + 2 + n) == 2
  }

  lemma PoolStored(m: seq<Word>, H: Blocks, m': seq<Word>, pools: set<Pool>, ctl: int, b: int, n: int)
    requires Shape(H, pools, ctl) && Stored(m, H) && Clear(H, pools, ctl, b, n) && b !in H && b + 1 + n !in H
    requires PoolWrites(m, H, m', b, n) && b + 2 + n < |m|
    ensures Stored(m', WithPool(H, b, n)) && SameAllocs(m, H, m', WithPool(H, b, n), {})
  {
    var H' := WithPool(H, b, n);
    forall q | q in H' ensures StoredAt(m', H', q) {
      if q in H {
        assert StoredAt(m, H, q) && BlockOk(H, ctl, q);
        ClearOfBlocks(H, pools, ctl, b, n, q);
        if H[q].prevFree { ClearOfBlocks(H, pools, ctl, b, n, At(m, q)); assert BlockOk(H, ctl, At(m, q)); }
      }
    }
    forall u | u in H && H[u].Used() ensures SamePayload(m, H, m', u) { ClearOfBlocks(H, pools, ctl, b, n, u); }
  }

  /** The headers of the new block and of its sentinel make it a detached free block of its own pool. */
  lemma PoolStep(m: seq<Word>, heads: seq<int>, H: Blocks, F: Members, pools: set<Pool>, ctl: int, m': seq<Word>,
                 b: int, n: int)
    requires HeapOk(m, heads, H, F, {}, pools, ctl) && Coalesced(H, F) && Clear(H, pools, ctl, b, n) && b + 2 + n < |m|
    requires PoolWrites(m, H, m', b, n)
    ensures b !in H && b + 1 + n !in H
    ensures HeapOk(m', heads, WithPool(H, b, n), F, {b}, pools + {Pool(b, b + 1 + n)}, ctl)
    ensures Coalesced(WithPool(H, b, n), F)
    ensures SameAllocs(m, H, m', WithPool(H, b, n), {})
  {
    PoolBlocks(H, pools, ctl, b, n);
    PoolPools(H, pools, ctl, b, n);
    PoolStored(m, H, m', pools, ctl, b, n);
    PoolLists(m, heads, H, F, pools, ctl, m', b, n);
  }

  lemma PoolLists(m: seq<Word>, heads: seq<int>, H: Blocks, F: Members, pools: set<Pool>, ctl: int, m': seq<Word>,
                  b: int, n: int)
    requires HeapOk(m, heads, H, F, {}, pools, ctl) && Clear(H, pools, ctl, b, n) && PoolWrites(m, H, m', b, n)
    ensures Lists(m', heads, F, ctl)
  {
    forall q | q in F ensures At(m', q + 2) == At(m, q + 2) && At(m', q + 3) == At(m, q + 3) {
      assert BlockOk(H, ctl, q);
      ClearOfBlocks(H, pools, ctl, b, n, q);
    }
    ListsFrame(m, m', heads, F, ctl);
  }

  ghost predicate PoolRoom(m: seq<Word>, b: int, n: int, head: int) {
    0 < b && 3 <= n < 0x1000_0000 && b + 2 + n < |m| < WORD_RANGE && 0 <= head && head + 3 < |m|
  }

  /** Memory after tlsf_add_pool: the header, the push onto the list whose head was `head`, the sentinel. */
  ghost function PoolMem(m: seq<Word>, b: int, n: int, head: int, ctl: Word): seq<Word>
    requires PoolRoom(m, b, n, head)
  {
    var h: Word := 4 * n + 1;
    var m1 := m[b + 1 := h];
    var m2 := m1[b + 2 := head][b + 3 := ctl][head + 3 := b];
    m2[b + 1 + n := b][b + 2 + n := 2]
  }

  lemma HeadClear(m: seq<Word>, heads: seq<int>, H: Blocks, F: Members, pools: set<Pool>, ctl: int, b: int, n: int,
                  c: int)
    requires HeapOk(m, heads, H, F, {}, pools, ctl) && Clear(H, pools, ctl, b, n)
    requires 0 <= c < CLASSES && 0 < ctl && b + 2 + n < |m|
    ensures 0 <= heads[c] && heads[c] + 3 < |m| && (heads[c] + 3 <= b || b + 2 + n < heads[c] + 3)
  {
    assert HeadOk(m, heads, F, ctl, c);
    if heads[c] != ctl {
      assert Placed(m, ctl, heads[c]) && BlockOk(H, ctl, heads[c]);
      ClearOfBlocks(H, pools, ctl, b, n, heads[c]);
    }
  }

  lemma AddPoolStep(m: seq<Word>, heads: seq<int>, H: Blocks, F: Members, pools: set<Pool>, ctl: Word,
                    m': seq<Word>, heads': seq<int>, b: Word, n: int, c: int) returns (F': Members)
    requires HeapOk(m, heads, H, F, {}, pools, ctl) && Coalesced(H, F)
    requires Clear(H, pools, ctl, b, n) && 0 < ctl && b + 2 + n < |m| < WORD_RANGE
    requires c == Class(4 * n) < CLASSES && PoolRoom(m, b, n, heads[c])
    requires m' == PoolMem(m, b, n, heads[c], ctl) && heads' == heads[c := b]
    ensures b !in H && b + 1 + n !in H
    ensures HeapOk(m', heads', WithPool(H, b, n), F', {}, pools + {Pool(b, b + 1 + n)}, ctl)
    ensures Coalesced(WithPool(H, b, n), F')
    ensures SameAllocs(m, H, m', WithPool(H, b, n), {})
  {
    var H' := WithPool(H, b, n);
    HeadClear(m, heads, H, F, pools, ctl, b, n, c);
    var h: Word := 4 * n + 1;
    var m1 := m[b + 1 := h][b + 1 + n := b][b + 2 + n := 2];
    assert PoolWrites(m, H, m1, b, n);
    PoolStep(m, heads, H, F, pools, ctl, m1, b, n);
    assert m' == m1[b + 2 := heads[c]][b + 3 := ctl][heads[c] + 3 := b];
    F' := PushStep(m1, heads, H', F, {b}, pools + {Pool(b, b + 1 + n)}, ctl, m', heads', b, c);
    assert {b} - {b} == {};
    InsertKeepsCoalesced(H', F, F', pools + {Pool(b, b + 1 + n)}, ctl, b);
    SameAllocsTrans(m, H, m1, H', m', H', {});
  }

  /** The index arithmetic of an accepted region. */
  lemma RegionClear(words: nat, H: Blocks, pools: set<Pool>, ctl: int, addr: Word, bytes: Word)
    requires addr % 4 == 0 && PoolAccepts(bytes) && PoolRegion(words, ctl, pools, addr, bytes)
    requires PoolBytes(bytes) != BLOCK_SIZE_MAX
    ensures var b, n := addr / 4 - 1, PoolBytes(bytes) / 4;
            && Clear(H, pools, ctl, b, n) && b + 2 + n < words && 4 * n == PoolBytes(bytes)
            && PoolAt(addr, bytes) == Pool(b, b + 1 + n)
            && Class(4 * n) < CLASSES
  {
    assert PoolBytes(bytes) + 8 <= bytes;
    ClassInRange(PoolBytes(bytes));
    var b, n := addr / 4 - 1, PoolBytes(bytes) / 4;
    forall p | p in pools ensures b + 2 + n <= p.first || p.last + 1 <= b {}
  }

  // ------------------------------------------------------------------ walking a pool

  /** The blocks from `b` up to, and not including, `last`, each found from the size of the one before. */
  ghost function Walk(H: Blocks, b: int, last: int): seq<int>
    decreases last - b
  {
    if b !in H || b >= last || H[b].n < 0 then [] else [b] + Walk(H, Next(H, b), last)
  }

  /** Bytes of payload and header overhead of the blocks of a walk. */
  ghost function Footprint(H: Blocks, w: seq<int>): int {
    if w == [] then 0 else (if w[0] in H then 4 * H[w[0]].n + 4 else 0) + Footprint(H, w[1..])
  }

  /** From any block of a pool the walk meets every later block of the pool, nothing else, and ends
      exactly at the sentinel; sizes and overheads add up to the distance. */
  lemma {:induction false} WalkTiles(H: Blocks, pools: set<Pool>, ctl: int, p: Pool, b: int)
    requires Shape(H, pools, ctl) && p in pools && b in H && p.first <= b <= p.last
    ensures Footprint(H, Walk(H, b, p.last)) == 4 * (p.last - b)
    ensures forall q :: q in Walk(H, b, p.last) <==> q in H && b <= q < p.last
    decreases p.last - b
  {
    assert PoolOk(H, p) && BlockOk(H, ctl, b);
    if b < p.last {
      NotSentinel(H, pools, ctl, p, b);
      WalkTiles(H, pools, ctl, p, Next(H, b));
      var rest := Walk(H, Next(H, b), p.last);
      assert Walk(H, b, p.last) == [b] + rest && ([b] + rest)[1..] == rest;
    }
  }

  /** Inside a pool only the last block has size zero, so the walk never stops early. */
  lemma NotSentinel(H: Blocks, pools: set<Pool>, ctl: int, p: Pool, b: int)
    requires Shape(H, pools, ctl) && p in pools && b in H && p.first <= b < p.last
    ensures H[b].n > 0 && Next(H, b) in H && Next(H, b) <= p.last
  {
    assert PoolOk(H, p) && BlockOk(H, ctl, b) && InSome(H, pools, b);
    var q :| q in pools && q.first <= b <= q.last && (H[b].n == 0 ==> b == q.last);
    assert PoolOk(H, q);
  }

  /** Conservation: the blocks of a pool and their headers fill it up to the sentinel, at all times. */
  lemma PoolConserved(H: Blocks, pools: set<Pool>, ctl: int, p: Pool)
    requires Shape(H, pools, ctl) && p in pools
    ensures Footprint(H, Walk(H, p.first, p.last)) == 4 * (p.last - p.first)
    ensures forall q :: q in Walk(H, p.first, p.last) <==> q in H && p.first <= q < p.last
  {
    assert PoolOk(H, p);
    WalkTiles(H, pools, ctl, p, p.first);
  }

  /** Live allocations are word aligned, inside a pool, and pairwise disjoint. */
  lemma LiveDisjoint(m: seq<Word>, H: Blocks, pools: set<Pool>, ctl: int, p: int, q: int)
    requires Shape(H, pools, ctl) && Stored(m, H) && p in Live(H) && q in Live(H) && |m| <= 0x4000_0000
    ensures p % 4 == 0 && Live(H)[p] % 4 == 0 && Live(H)[p] >= BLOCK_SIZE_MIN && p + Live(H)[p] <= 4 * |m|
    ensures p != q ==> p + Live(H)[p] <= q || q + Live(H)[q] <= p
    ensures exists pool :: pool in pools && 4 * (pool.first + 2) <= p && p + Live(H)[p] <= 4 * (pool.last + 1)
  {
    LiveBlock(m, H, ctl, p);
    LiveBlock(m, H, ctl, q);
    ReadHeader(m, H, ctl, p / 4 - 2);
    ReadHeader(m, H, ctl, q / 4 - 2);
    var pool := InPool(H, pools, ctl, p / 4 - 2);
    assert pool in pools && 4 * (pool.first + 2) <= p && p + Live(H)[p] <= 4 * (pool.last + 1);
  }

  lemma InPool(H: Blocks, pools: set<Pool>, ctl: int, b: int) returns (p: Pool)
    requires Shape(H, pools, ctl) && b in H && H[b].n > 0
    ensures p in pools && p.first <= b && Next(H, b) <= p.last
  {
    assert InSome(H, pools, b);
    p :| p in pools && p.first <= b <= p.last && (H[b].n == 0 ==> b == p.last);
    assert PoolOk(H, p);
  }
}
