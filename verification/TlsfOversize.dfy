/** What becomes of the heap when tlsf_realloc is asked for more than any block can hold: the adjusted size
    is 0, the in-place branch is taken, and a block of at least 16 bytes is cut after 0 bytes
    (system/tlsf.c, block_trim_used and tlsf_realloc). */
module TlsfOversize {
  import opened Bits
  import opened TlsfMapping
  import opened TlsfAlign
  import opened TlsfHeap
  import opened TlsfBlocks
  import opened TlsfLists
  import opened TlsfFrames
  import opened TlsfSteps
  import opened TlsfPool

  /** The request and block for which that happens. */
  ghost predicate Spoils(H: Blocks, ptr: Word, size: Word) {
    ptr in Live(H) && size != 0 && Adjusted(size, 2) == 0 && Live(H)[ptr] >= 16
  }

  /** For a block of at least 16 bytes, exactly the sizes that no block can have but that do not wrap; for one
      of 12 bytes, none. */
  lemma SpoilingSizes(H: Blocks, ptr: Word, size: Word)
    requires ptr in Live(H)
    ensures Spoils(H, ptr, size) <==> Live(H)[ptr] >= 16 && BLOCK_SIZE_MAX - 4 < size <= WORD_RANGE - 4
  {
    AdjustWords(size);
  }

  /** No blocks at all tile the pools with the headers in `m`. */
  ghost predicate NoMap(m: seq<Word>, pools: set<Pool>, ctl: int) {
    forall H: Blocks :: !(Shape(H, pools, ctl) && Stored(m, H))
  }

  /** The headers before block `b` are as they were, and that of `b` says size 0. */
  ghost predicate CutToNothing(m: seq<Word>, H: Blocks, m': seq<Word>, b: int) {
    && |m'| == |m|
    && (forall q :: q in H && q < b ==> At(m', q + 1) == At(m, q + 1))
    && 0 <= At(m', b + 1) < 4
  }

  /** Any map of the pools must follow the same headers up to `b`. */
  lemma {:induction false} Reaches(m: seq<Word>, H: Blocks, m': seq<Word>, H': Blocks, pools: set<Pool>, ctl: int,
                                   p: Pool, b: int, q: int)
    requires Shape(H, pools, ctl) && Stored(m, H) && Shape(H', pools, ctl) && Stored(m', H')
    requires p in pools && b in H && b < p.last && CutToNothing(m, H, m', b)
    requires q in H && q in H' && p.first <= q <= b
    ensures b in H'
    decreases b - q
  {
    if q < b {
      NotSentinel(H, pools, ctl, p, q);
      assert StoredAt(m, H, q) && StoredAt(m', H', q) && BlockOk(H, ctl, q) && BlockOk(H', ctl, q);
      SameSize(H[q], H'[q]);
      Reaches(m, H, m', H', pools, ctl, p, b, Next(H, q));
    }
  }

  lemma SameSize(k: Block, l: Block)
    requires Header(k) == Header(l) && 0 <= k.n && 0 <= l.n
    ensures k.n == l.n
  {}

  /** A pool whose walk ends before its sentinel has no map. */
  lemma CutHasNoMap(m: seq<Word>, H: Blocks, m': seq<Word>, pools: set<Pool>, ctl: int, b: int)
    requires Shape(H, pools, ctl) && Stored(m, H) && b in H && H[b].n > 0 && CutToNothing(m, H, m', b)
    ensures NoMap(m', pools, ctl)
  {
    var p := InPool(H, pools, ctl, b);
    forall H': Blocks ensures !(Shape(H', pools, ctl) && Stored(m', H')) {
      if Shape(H', pools, ctl) && Stored(m', H') {
        assert PoolOk(H, p) && PoolOk(H', p);
        Reaches(m, H, m', H', pools, ctl, p, b, p.first);
        assert StoredAt(m', H', b);
        NotSentinel(H', pools, ctl, p, b);
      }
    }
  }

  // ------------------------------------------------------------------ the writes, one function at a time

  /** Word `i` may be written without disturbing the headers up to that of `b`. */
  ghost predicate Harmless(H: Blocks, ctl: int, b: int, i: int) {
    LinkWord(H, ctl, i) || i >= b + 2
  }

  lemma StillCut(m: seq<Word>, H: Blocks, ctl: int, m1: seq<Word>, m2: seq<Word>, b: int, S: set<int>)
    requires BlocksOk(H, ctl) && b in H && CutToNothing(m, H, m1, b) && ChangesOnly(m1, m2, S)
    requires forall i :: i in S ==> Harmless(H, ctl, b, i)
    ensures CutToNothing(m, H, m2, b)
  {
    forall q | q in H && q <= b ensures At(m2, q + 1) == At(m1, q + 1) { HeaderIsNoLink(H, ctl, q); }
  }

  /** Every list starts at block_null or at a block on a list. */
  ghost predicate HeadsListed(heads: seq<int>, F: Members, ctl: int) {
    |heads| == CLASSES && forall c :: 0 <= c < CLASSES ==> heads[c] == ctl || heads[c] in F
  }

  lemma ListsListed(m: seq<Word>, heads: seq<int>, F: Members, ctl: int)
    requires Lists(m, heads, F, ctl)
    ensures HeadsListed(heads, F, ctl)
  {
    forall c | 0 <= c < CLASSES ensures heads[c] == ctl || heads[c] in F { assert HeadOk(m, heads, F, ctl, c); }
  }

  /** The block is cut: the words block_split writes. */
  lemma SplitCuts(m: seq<Word>, H: Blocks, pools: set<Pool>, ctl: int, b: int)
    requires Shape(H, pools, ctl) && Stored(m, H) && b in H && H[b].Used() && H[b].n >= 4 && |m| <= 0x4000_0000
    ensures SplitRoom(m, b, 0) && Next(H, b) in H && Next(H, b) + 1 < |m|
    ensures var m1, nx := SplitMem(m, b, 0, false), Next(H, b);
      && CutToNothing(m, H, m1, b) && ChangesOnly(m, m1, {b + 1, b + 2, nx, nx + 1})
      && m1[b + 2] == 4 * (H[b].n - 1) + 1 && At(m1, nx + 1) == WithPrevFree(m[nx + 1])
  {
    ReadHeader(m, H, ctl, b);
    ReadHeader(m, H, ctl, Next(H, b));
    forall q | q in H && q < b ensures At(SplitMem(m, b, 0, false), q + 1) == At(m, q + 1) {
      assert BlockOk(H, ctl, q);
    }
  }

  /** The words remove_free_block writes for a member other than those inside `b`. */
  lemma UnlinkHarmless(m: seq<Word>, heads: seq<int>, H: Blocks, F: Members, pools: set<Pool>, ctl: int, q: int)
    requires HeapOk(m, heads, H, F, {}, pools, ctl) && q in F && 0 < ctl
    ensures 0 < q && q + 3 < |m| && q != ctl && q in H && H[q].free
    ensures var nx, pv := At(m, q + 2), At(m, q + 3);
      && 0 <= nx && nx + 3 < |m| && 0 <= pv && pv + 2 < |m| && (nx == ctl || nx in F) && (pv == ctl || pv in F)
      && LinkWord(H, ctl, nx + 3) && LinkWord(H, ctl, pv + 2)
  {
    UnlinkReady(m, heads, H, F, {}, pools, ctl, q);
    assert Linked(m, heads, F, ctl, q);
    MemberLinkWords(H, F, {}, ctl, At(m, q + 2));
    MemberLinkWords(H, F, {}, ctl, At(m, q + 3));
  }

  /** Words of the payload of `b`, of its successor's header and links, are no link words of others. */
  lemma PayloadSafe(H: Blocks, F: Members, ctl: int, b: int, i: int)
    requires BlocksOk(H, ctl) && FreeOk(H, F, {}) && b in H && H[b].Used() && b + 2 <= i <= Next(H, b)
    ensures !LinkWord(H, ctl, i)
  {
    PayloadIsNoLink(H, ctl, b, i);
  }

  /** The head a block is pushed in front of. */
  lemma HeadHarmless(m: seq<Word>, heads: seq<int>, H: Blocks, F: Members, pools: set<Pool>, ctl: int,
                     heads': seq<int>, c: int)
    requires HeapOk(m, heads, H, F, {}, pools, ctl) && HeadsListed(heads', F, ctl) && 0 <= c < CLASSES && 0 < ctl
    ensures 0 <= heads'[c] && heads'[c] + 3 < |m| && LinkWord(H, ctl, heads'[c] + 3)
  {
    MemberLinkWords(H, F, {}, ctl, heads'[c]);
    if heads'[c] != ctl { assert Placed(m, ctl, heads'[c]) && BlockOk(H, ctl, heads'[c]); }
  }

  /** While the loose remainder r = b + 1 is merged and filed: headers as cut, list heads as listed. */
  ghost predicate Loose(m: seq<Word>, H: Blocks, F: Members, ctl: int, m1: seq<Word>, heads: seq<int>, b: int) {
    CutToNothing(m, H, m1, b) && HeadsListed(heads, F, ctl) && 0 <= b && b + 4 < |m1|
  }

  /** After the split: the successor is flagged free exactly if it was, and its links are as they were. */
  lemma SplitLoose(m: seq<Word>, heads: seq<int>, H: Blocks, F: Members, pools: set<Pool>, ctl: int, b: int)
    requires HeapOk(m, heads, H, F, {}, pools, ctl) && b in H && H[b].Used() && H[b].n >= 4 && |m| <= 0x4000_0000
    ensures SplitRoom(m, b, 0) && Next(H, b) in H && Next(H, b) + 1 < |m| && 0 < b
    ensures var m1, nx := SplitMem(m, b, 0, false), Next(H, b);
      && Loose(m, H, F, ctl, m1, heads, b) && m1[b + 2] == 4 * (H[b].n - 1) + 1
      && (m1[nx + 1] % 2 == 1 <==> nx in F) && m1[nx + 1] / 4 == H[nx].n
      && (nx in F ==> At(m1, nx + 2) == At(m, nx + 2) && At(m1, nx + 3) == At(m, nx + 3))
  {
    SplitCuts(m, H, pools, ctl, b);
    ListsListed(m, heads, F, ctl);
    ReadHeader(m, H, ctl, b);
    ReadHeader(m, H, ctl, Next(H, b));
    HeaderFlags(H[Next(H, b)], m[Next(H, b) + 1]);
    HeaderParts(H[Next(H, b)].(prevFree := true));
  }

  lemma HeaderParts(k: Block)
    requires 0 <= k.n
    ensures Header(k) / 4 == k.n && (Header(k) % 2 == 1 <==> k.free)
  {
    var free, prev := if k.free then 1 else 0, if k.prevFree then 1 else 0;
    assert Header(k) == k.n * 4 + (2 * prev + free) == (2 * k.n + prev) * 2 + free;
    MultipleUnique(Header(k), 4, k.n, 2 * prev + free);
    MultipleUnique(Header(k), 2, 2 * k.n + prev, free);
  }

  /** After the free successor `nx` left its list. */
  lemma UnlinkLoose(m: seq<Word>, heads: seq<int>, H: Blocks, F: Members, pools: set<Pool>, ctl: int, b: int,
                    m1: seq<Word>, m2: seq<Word>, heads': seq<int>)
    requires HeapOk(m, heads, H, F, {}, pools, ctl) && b in H && H[b].Used() && Next(H, b) in F && 0 < ctl
    requires Loose(m, H, F, ctl, m1, heads, b) && m1[b + 2] == 4 * (H[b].n - 1) + 1 && Next(H, b) + 1 < |m|
    requires var nx := Next(H, b); At(m1, nx + 2) == At(m, nx + 2) && At(m1, nx + 3) == At(m, nx + 3)
    requires var nx := Next(H, b);
      var n, p := At(m, nx + 2), At(m, nx + 3);
      0 <= n && n + 3 < |m1| && 0 <= p && p + 2 < |m1| && m2 == m1[n + 3 := p][p + 2 := n]
    requires heads' == UnlinkedHeads(m1, heads, Next(H, b), F[Next(H, b)].cls)
    ensures Loose(m, H, F, ctl, m2, heads', b) && m2[b + 2] == m1[b + 2]
    ensures At(m2, Next(H, b) + 1) == At(m1, Next(H, b) + 1)
  {
    var nx := Next(H, b);
    UnlinkHarmless(m, heads, H, F, pools, ctl, nx);
    StillCut(m, H, ctl, m1, m2, b, {At(m, nx + 2) + 3, At(m, nx + 3) + 2});
    assert BlockOk(H, ctl, b);
    PayloadSafe(H, F, ctl, b, b + 2);
    HeaderIsNoLink(H, ctl, nx);
  }

  /** After the successor's storage was absorbed. */
  lemma AbsorbLoose(m: seq<Word>, H: Blocks, F: Members, pools: set<Pool>, ctl: int, b: int, m2: seq<Word>,
                    heads: seq<int>)
    requires Shape(H, pools, ctl) && Stored(m, H) && b in H && H[b].Used() && Next(H, b) in H && H[Next(H, b)].free
    requires Loose(m, H, F, ctl, m2, heads, b) && m2[b + 2] == 4 * (H[b].n - 1) + 1 && |m| <= 0x4000_0000
    requires 0 <= Next(H, b) && Next(H, b) + 1 < |m| && m2[Next(H, b) + 1] / 4 == H[Next(H, b)].n
    ensures AbsorbRoom(m2, b + 1, Next(H, b))
    ensures var m3 := AbsorbMem(m2, b + 1, Next(H, b));
      Loose(m, H, F, ctl, m3, heads, b) && m3[b + 2] / 4 < 0x1000_0000
  {
    var nx := Next(H, b);
    ReadHeader(m, H, ctl, b);
    ReadHeader(m, H, ctl, nx);
    AbsorbBound(H, pools, ctl, b, nx);
    var m3 := AbsorbMem(m2, b + 1, nx);
    StillCut(m, H, ctl, m2, m3, b, {b + 2, b + 3 + m2[b + 2] / 4 + m2[nx + 1] / 4});
  }

  /** After the remainder was put on a list. */
  lemma PushLoose(m: seq<Word>, heads: seq<int>, H: Blocks, F: Members, pools: set<Pool>, ctl: int, b: int,
                  m3: seq<Word>, heads': seq<int>, c: int, m4: seq<Word>)
    requires HeapOk(m, heads, H, F, {}, pools, ctl) && b in H && 0 <= b && 0 < ctl < WORD_RANGE && 0 <= c < CLASSES
    requires Loose(m, H, F, ctl, m3, heads', b)
    requires 0 <= heads'[c] && heads'[c] + 3 < |m3| && heads'[c] < WORD_RANGE && b + 1 < WORD_RANGE
    requires m4 == m3[b + 3 := heads'[c]][b + 4 := ctl][heads'[c] + 3 := b + 1]
    ensures CutToNothing(m, H, m4, b)
  {
    HeadHarmless(m, heads, H, F, pools, ctl, heads', c);
    StillCut(m, H, ctl, m3, m4, b, {b + 3, b + 4, heads'[c] + 3});
  }

  lemma Unchanged(m: seq<Word>, H: Blocks, ptr: int)
    requires ptr in Live(H)
    ensures OthersKept2(m, H, m, H, ptr, ptr)
    ensures CopiedWords(m, ptr / 4, m, ptr / 4, Min(Live(H)[ptr], Live(H)[ptr]) / 4)
  {}
}
