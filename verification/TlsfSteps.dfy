/** The heap invariant, and the six elementary steps every allocator operation is composed of. Each
    step lemma turns "these words were written" into "the invariant holds of the new block map, and
    the other allocations are untouched". */
module TlsfSteps {
  import opened Bits
  import opened TlsfMapping
  import opened TlsfAlign
  import opened TlsfHeap
  import opened TlsfBlocks
  import opened TlsfLists
  import opened TlsfFrames

  /** Memory, lists and ghost block map agree; blocks in D are free but on no list. */
  ghost predicate HeapOk(m: seq<Word>, heads: seq<int>, H: Blocks, F: Members, D: set<int>, pools: set<Pool>,
                         ctl: int) {
    Shape(H, pools, ctl) && Stored(m, H) && FreeOk(H, F, D) && Lists(m, heads, F, ctl)
  }

  lemma StepFlag(m: seq<Word>, heads: seq<int>, H: Blocks, F: Members, D: set<int>, pools: set<Pool>, ctl: int,
                 m': seq<Word>, b: int, free: bool)
    requires HeapOk(m, heads, H, F, D, pools, ctl) && b in H && H[b].n > 0 && b !in F && Next(H, b) in H
    requires FlagWrites(m, H, m', b, free)
    ensures HeapOk(m', heads, Flagged(H, b, free), F, if free then D + {b} else D - {b}, pools, ctl)
    ensures SameAllocs(m, H, m', Flagged(H, b, free), {b})
  {
    FlaggedShape(H, pools, ctl, b, free);
    FlaggedStored(m, H, m', ctl, b, free);
    InsideFrame(m, H, ctl, m', heads, F, D, b);
  }

  lemma StepSplit(m: seq<Word>, heads: seq<int>, H: Blocks, F: Members, D: set<int>, pools: set<Pool>, ctl: int,
                  m': seq<Word>, b: int, s: int)
    requires HeapOk(m, heads, H, F, D, pools, ctl) && CanSplit(H, ctl, b, s) && b !in F
    requires SplitWrites(m, H, m', b, s)
    ensures b + 1 + s !in H
    ensures HeapOk(m', heads, Split(H, b, s), F, D + {b + 1 + s}, pools, ctl)
    ensures SameAllocs(m, H, m', Split(H, b, s), {b})
  {
    SplitShape(H, pools, ctl, b, s);
    SplitStored(m, H, m', ctl, b, s);
    InsideFrame(m, H, ctl, m', heads, F, D, b);
  }

  lemma StepAbsorb(m: seq<Word>, heads: seq<int>, H: Blocks, F: Members, D: set<int>, pools: set<Pool>, ctl: int,
                   m': seq<Word>, p: int, b: int)
    requires HeapOk(m, heads, H, F, D, pools, ctl) && CanAbsorb(H, ctl, p, b) && p in D && b in D
    requires AbsorbWrites(m, H, m', p, b)
    ensures HeapOk(m', heads, Absorb(H, p, b), F, D - {b}, pools, ctl)
    ensures SameAllocs(m, H, m', Absorb(H, p, b), {})
  {
    AbsorbShape(H, pools, ctl, p, b);
    AbsorbStored(m, H, m', ctl, p, b);
    assert FreeOk(Absorb(H, p, b), F, D - {b});
    AbsorbLists(m, heads, H, F, D, ctl, m', p, b);
  }

  lemma AbsorbLists(m: seq<Word>, heads: seq<int>, H: Blocks, F: Members, D: set<int>, ctl: int, m': seq<Word>,
                    p: int, b: int)
    requires BlocksOk(H, ctl) && FreeOk(H, F, D) && Lists(m, heads, F, ctl) && p in H && b in H && b == Next(H, p)
    requires H[p].n > 0 && H[b].n > 0 && p !in F && b !in F && Next(H, b) in H
    requires AbsorbWrites(m, H, m', p, b)
    ensures Lists(m', heads, F, ctl)
  {
    forall q | q in F ensures At(m', q + 2) == At(m, q + 2) && At(m', q + 3) == At(m, q + 3) {
      assert BlockOk(H, ctl, q) && BlockOk(H, ctl, p) && BlockOk(H, ctl, b);
    }
    ListsFrame(m, m', heads, F, ctl);
  }

  lemma StepUnlink(m: seq<Word>, heads: seq<int>, H: Blocks, F: Members, D: set<int>, pools: set<Pool>, ctl: int,
                   m': seq<Word>, b: int)
    requires HeapOk(m, heads, H, F, D, pools, ctl) && b in F
    requires UnlinkWrites(m, m', b)
    ensures HeapOk(m', UnlinkedHeads(m, heads, b, F[b].cls), H, F - {b}, D + {b}, pools, ctl)
    ensures SameAllocs(m, H, m', H, {})
  {
    UnlinkKeeps(m, heads, F, ctl, m', b);
    var nx, pv := At(m, b + 2), At(m, b + 3);
    assert Linked(m, heads, F, ctl, b);
    MemberLinkWords(H, F, D, ctl, nx);
    MemberLinkWords(H, F, D, ctl, pv);
    LinkWordsFrame(m, H, ctl, m', {nx + 3, pv + 2});
  }

  lemma MemberLinkWords(H: Blocks, F: Members, D: set<int>, ctl: int, b: int)
    requires FreeOk(H, F, D) && (b == ctl || b in F || b in D)
    ensures LinkWord(H, ctl, b + 2) && LinkWord(H, ctl, b + 3)
  {}

  lemma StepPush(m: seq<Word>, heads: seq<int>, H: Blocks, F: Members, D: set<int>, pools: set<Pool>, ctl: int,
                 m': seq<Word>, b: int, k: Member)
    requires HeapOk(m, heads, H, F, D, pools, ctl) && b in D
    requires H[b].n >= 0 && k.cls == Class(4 * H[b].n) < CLASSES && forall q :: q in F ==> F[q].rank < k.rank
    requires PushWrites(m, m', ctl, heads[k.cls], b)
    ensures HeapOk(m', heads[k.cls := b], H, F[b := k], D - {b}, pools, ctl)
    ensures SameAllocs(m, H, m', H, {})
  {
    assert BlockOk(H, ctl, b) && StoredAt(m, H, b);
    forall q | q in F ensures q + 3 < b || b + 3 < q { assert BlockOk(H, ctl, q); }
    PushKeeps(m, heads, F, ctl, m', b, k);
    var head := heads[k.cls];
    assert HeadOk(m, heads, F, ctl, k.cls);
    MemberLinkWords(H, F, D, ctl, b);
    MemberLinkWords(H, F, D, ctl, head);
    LinkWordsFrame(m, H, ctl, m', {b + 2, b + 3, head + 3});
  }

  // ------------------------------------------------------------------ list steps, from the words written

  /** The indices remove_free_block uses are in memory, and its two writes are what StepUnlink needs. */
  lemma UnlinkReady(m: seq<Word>, heads: seq<int>, H: Blocks, F: Members, D: set<int>, pools: set<Pool>, ctl: int,
                    b: int)
    requires HeapOk(m, heads, H, F, D, pools, ctl) && b in F && 0 < ctl
    ensures 0 < b && b + 3 < |m| && b != ctl && 0 <= F[b].cls < CLASSES && b in H && F[b].cls == Class(4 * H[b].n)
    ensures 0 <= m[b + 2] && m[b + 2] + 3 < |m| && 0 <= m[b + 3] && m[b + 3] + 2 < |m|
  {
    assert BlockOk(H, ctl, b) && Linked(m, heads, F, ctl, b) && Placed(m, ctl, b);
    var nx, pv := At(m, b + 2), At(m, b + 3);
    if nx != ctl { assert Placed(m, ctl, nx); }
    if pv != ctl { assert Placed(m, ctl, pv); }
  }

  lemma UnlinkStep(m: seq<Word>, heads: seq<int>, H: Blocks, F: Members, D: set<int>, pools: set<Pool>, ctl: int,
                   m': seq<Word>, heads': seq<int>, b: int)
    requires HeapOk(m, heads, H, F, D, pools, ctl) && b in F && 0 < ctl
    requires var nx, pv := At(m, b + 2), At(m, b + 3);
             0 <= nx && nx + 3 < |m| && 0 <= pv && pv + 2 < |m| && m' == m[nx + 3 := pv][pv + 2 := nx]
    requires heads' == UnlinkedHeads(m, heads, b, F[b].cls)
    ensures HeapOk(m', heads', H, F - {b}, D + {b}, pools, ctl) && SameAllocs(m, H, m', H, {})
  {
    UnlinkReady(m, heads, H, F, D, pools, ctl, b);
    var nx, pv := At(m, b + 2), At(m, b + 3);
    assert nx + 3 != pv + 2 by {
      assert Linked(m, heads, F, ctl, b);
      if nx != ctl { assert Placed(m, ctl, nx); }
      if pv != ctl { assert Placed(m, ctl, pv); }
    }
    assert UnlinkWrites(m, m', b);
    StepUnlink(m, heads, H, F, D, pools, ctl, m', b);
  }

  lemma PushStep(m: seq<Word>, heads: seq<int>, H: Blocks, F: Members, D: set<int>, pools: set<Pool>, ctl: int,
                 m': seq<Word>, heads': seq<int>, b: Word, c: int) returns (F': Members)
    requires HeapOk(m, heads, H, F, D, pools, ctl) && b in D && 0 < ctl
    requires b in H && H[b].n >= 0 && c == Class(4 * H[b].n) < CLASSES
    requires 0 <= heads[c] && heads[c] + 3 < |m| && b + 3 < |m| && ctl < 0x1_0000_0000 && heads[c] < 0x1_0000_0000
    requires m' == m[b + 2 := heads[c]][b + 3 := ctl][heads[c] + 3 := b]
    requires heads' == heads[c := b]
    ensures HeapOk(m', heads', H, F', D - {b}, pools, ctl) && SameAllocs(m, H, m', H, {}) && F'.Keys == F.Keys + {b}
  {
    PushReady(m, heads, H, F, D, pools, ctl, b);
    var top := RankBound(F, F.Keys);
    assert PushWrites(m, m', ctl, heads[c], b);
    StepPush(m, heads, H, F, D, pools, ctl, m', b, Member(c, top));
    F' := F[b := Member(c, top)];
  }

  lemma PushReady(m: seq<Word>, heads: seq<int>, H: Blocks, F: Members, D: set<int>, pools: set<Pool>, ctl: int, b: int)
    requires HeapOk(m, heads, H, F, D, pools, ctl) && b in D && 0 < ctl
    ensures 0 < b && b + 3 < |m| && b != ctl && b in H && H[b].n >= 0
    ensures var c := Class(4 * H[b].n);
      0 <= c < CLASSES && 0 <= heads[c] && heads[c] + 3 < |m| && heads[c] + 3 != b + 2 && heads[c] != b
  {
    assert BlockOk(H, ctl, b) && StoredAt(m, H, b);
    ClassInRange(4 * H[b].n);
    var c := Class(4 * H[b].n);
    assert HeadOk(m, heads, F, ctl, c);
    if heads[c] != ctl { assert Placed(m, ctl, heads[c]) && BlockOk(H, ctl, heads[c]); }
  }

  /** No head is a null pointer. */
  lemma HeadsPositive(m: seq<Word>, heads: seq<int>, H: Blocks, F: Members, D: set<int>, pools: set<Pool>, ctl: int)
    requires HeapOk(m, heads, H, F, D, pools, ctl) && 0 < ctl
    ensures forall c :: 0 <= c < CLASSES ==> heads[c] > 0
  {
    forall c | 0 <= c < CLASSES ensures heads[c] > 0 {
      assert HeadOk(m, heads, F, ctl, c);
      if heads[c] != ctl { assert BlockOk(H, ctl, heads[c]); }
    }
  }

  // ------------------------------------------------------------------ header steps, from the words written

  ghost predicate FlagRoom(m: seq<Word>, b: int) {
    0 <= b && b + 1 < |m| < 0x1_0000_0000 && m[b + 1] / 4 > 0 && b + 2 + m[b + 1] / 4 < |m|
  }

  /** Memory after block_mark_as_free or block_mark_as_used. */
  ghost function FlagMem(m: seq<Word>, b: int, free: bool): seq<Word>
    requires FlagRoom(m, b)
  {
    var nx := b + 1 + m[b + 1] / 4;
    if free then m[nx := b][nx + 1 := WithPrevFree(m[nx + 1])][b + 1 := WithFree(m[b + 1])]
    else m[nx + 1 := NoPrevFree(m[nx + 1])][b + 1 := NoFree(m[b + 1])]
  }

  lemma FlagWords(m: seq<Word>, H: Blocks, ctl: int, b: int, free: bool)
    requires BlocksOk(H, ctl) && Stored(m, H) && b in H && H[b].n > 0 && |m| <= 0x4000_0000
    ensures Next(H, b) in H && FlagRoom(m, b)
    ensures FlagWrites(m, H, FlagMem(m, b, free), b, free)
  {
    ReadHeader(m, H, ctl, b);
    ReadHeader(m, H, ctl, Next(H, b));
    HeaderFlags(H[b], m[b + 1]);
    HeaderFlags(H[Next(H, b)], m[Next(H, b) + 1]);
  }

  lemma FlagStep(m: seq<Word>, heads: seq<int>, H: Blocks, F: Members, D: set<int>, pools: set<Pool>, ctl: int,
                 m': seq<Word>, b: int, free: bool)
    requires HeapOk(m, heads, H, F, D, pools, ctl) && b in H && H[b].n > 0 && b !in F && |m| <= 0x4000_0000
    requires FlagRoom(m, b) && m' == FlagMem(m, b, free)
    ensures Next(H, b) in H
    ensures HeapOk(m', heads, Flagged(H, b, free), F, if free then D + {b} else D - {b}, pools, ctl)
    ensures SameAllocs(m, H, m', Flagged(H, b, free), {b})
  {
    FlagWords(m, H, ctl, b, free);
    StepFlag(m, heads, H, F, D, pools, ctl, m', b, free);
  }

  ghost predicate SplitRoom(m: seq<Word>, b: int, s: int) {
    && 0 <= b && b + 1 < |m| <= 0x4000_0000 && m[b + 1] < 0x4000_0000
    && (s == 0 || 3 <= s) && s + 4 <= m[b + 1] / 4 && b + 2 + m[b + 1] / 4 < |m|
  }

  /** Memory after block_split and the caller's fix-up of the remainder's back link and flag. */
  ghost function SplitMem(m: seq<Word>, b: int, s: int, free: bool): seq<Word>
    requires SplitRoom(m, b, s)
  {
    var n, r := m[b + 1] / 4, b + 1 + s;
    var nx := b + 1 + n;
    var m0 := m[b + 1 := 4 * s + m[b + 1] % 4][nx := r][nx + 1 := WithPrevFree(m[nx + 1])]
               [r + 1 := 4 * (n - s - 1) + (if free then 3 else 1)];
    if free then m0[r := b] else m0
  }

  lemma SplitHeaders(k: Block, s: int, w: Word)
    requires 0 <= k.n < 0x1000_0000 && w == Header(k) && 3 <= s && s + 4 <= k.n
    ensures 4 * s + w % 4 == Header(k.(n := s)) && w / 4 == k.n
    ensures 4 * (k.n - s - 1) + (if k.free then 3 else 1) == Header(Block(k.n - s - 1, true, k.free))
  {}

  lemma SplitWords(m: seq<Word>, H: Blocks, ctl: int, b: int, s: int)
    requires BlocksOk(H, ctl) && Stored(m, H) && CanSplit(H, ctl, b, s) && |m| <= 0x4000_0000
    ensures SplitRoom(m, b, s) && m[b + 1] / 4 == H[b].n
    ensures SplitWrites(m, H, SplitMem(m, b, s, H[b].free), b, s)
  {
    var nx := Next(H, b);
    ReadHeader(m, H, ctl, b);
    ReadHeader(m, H, ctl, nx);
    SplitHeaders(H[b], s, m[b + 1]);
    HeaderFlags(H[nx], m[nx + 1]);
    var m' := SplitMem(m, b, s, H[b].free);
    assert At(m', nx + 1) == WithPrevFree(m[nx + 1]);
  }

  lemma SplitStep(m: seq<Word>, heads: seq<int>, H: Blocks, F: Members, D: set<int>, pools: set<Pool>, ctl: int,
                  m': seq<Word>, b: int, s: int)
    requires HeapOk(m, heads, H, F, D, pools, ctl) && CanSplit(H, ctl, b, s) && b !in F && |m| <= 0x4000_0000
    requires SplitRoom(m, b, s) && m' == SplitMem(m, b, s, H[b].free)
    ensures b + 1 + s !in H
    ensures HeapOk(m', heads, Split(H, b, s), F, D + {b + 1 + s}, pools, ctl)
    ensures SameAllocs(m, H, m', Split(H, b, s), {b})
  {
    SplitWords(m, H, ctl, b, s);
    StepSplit(m, heads, H, F, D, pools, ctl, m', b, s);
  }

  /** Splitting a detached block, from the request in bytes. */
  lemma SplitDetachedStep(m: seq<Word>, heads: seq<int>, H: Blocks, F: Members, pools: set<Pool>, ctl: int,
                          m': seq<Word>, b: int, size: int)
    requires HeapOk(m, heads, H, F, {b}, pools, ctl) && b in H && H[b].n > 0 && Next(H, b) in H && |m| <= 0x4000_0000
    requires 12 <= size && size % 4 == 0 && size + 16 <= 4 * H[b].n
    requires SplitRoom(m, b, size / 4) && m' == SplitMem(m, b, size / 4, true)
    ensures b + 1 + size / 4 !in H
    ensures HeapOk(m', heads, Split(H, b, size / 4), F, {b, b + 1 + size / 4}, pools, ctl)
    ensures SameAllocs(m, H, m', Split(H, b, size / 4), {b})
  {
    SplitReady(m, H, ctl, b, size);
    SplitStep(m, heads, H, F, {b}, pools, ctl, m', b, size / 4);
    assert {b} + {b + 1 + size / 4} == {b, b + 1 + size / 4};
  }

  /** A block with room for `size` more than a header can be split there. */
  lemma SplitReady(m: seq<Word>, H: Blocks, ctl: int, b: int, size: int)
    requires BlocksOk(H, ctl) && Stored(m, H) && b in H && H[b].n > 0 && |m| <= 0x4000_0000
    requires 12 <= size && size % 4 == 0 && size + 16 <= 4 * H[b].n
    ensures CanSplit(H, ctl, b, size / 4) && SplitRoom(m, b, size / 4)
    ensures (m[b + 1] % 2 == 1 <==> H[b].free)
  {
    ReadHeader(m, H, ctl, b);
    ReadHeader(m, H, ctl, Next(H, b));
    assert BlockOk(H, ctl, b);
  }

  ghost predicate AbsorbRoom(m: seq<Word>, p: int, b: int) {
    && 0 <= p < b && b + 1 < |m| <= 0x4000_0000 && m[p + 1] < 0x4000_0000 && m[b + 1] < 0x4000_0000
    && p + 2 + m[p + 1] / 4 + m[b + 1] / 4 < |m|
  }

  /** Memory after block_absorb. */
  ghost function AbsorbMem(m: seq<Word>, p: int, b: int): seq<Word>
    requires AbsorbRoom(m, p, b)
  {
    m[p + 1 := m[p + 1] + m[b + 1] / 4 * 4 + 4][p + 2 + m[p + 1] / 4 + m[b + 1] / 4 := p]
  }

  lemma AbsorbReady(m: seq<Word>, H: Blocks, ctl: int, p: int, b: int)
    requires BlocksOk(H, ctl) && Stored(m, H) && p in H && b in H
    requires b == Next(H, p) && H[p].n > 0 && H[b].n > 0 && |m| <= 0x4000_0000
    ensures AbsorbRoom(m, p, b) && m[b + 1] / 4 == H[b].n && m[p + 1] / 4 == H[p].n && 0 < p
    ensures p + 2 + m[p + 1] / 4 + m[b + 1] / 4 == Next(H, b) && Next(H, b) in H
  {
    ReadHeader(m, H, ctl, p);
    ReadHeader(m, H, ctl, b);
    assert BlockOk(H, ctl, b) && BlockOk(H, ctl, p);
  }

  lemma AbsorbStep(m: seq<Word>, heads: seq<int>, H: Blocks, F: Members, D: set<int>, pools: set<Pool>, ctl: int,
                   m': seq<Word>, p: int, b: int)
    requires HeapOk(m, heads, H, F, D, pools, ctl) && p in D && b in D
    requires p in H && b in H && b == Next(H, p) && |m| <= 0x4000_0000
    requires AbsorbRoom(m, p, b) && m' == AbsorbMem(m, p, b)
    ensures HeapOk(m', heads, Absorb(H, p, b), F, D - {b}, pools, ctl)
    ensures SameAllocs(m, H, m', Absorb(H, p, b), {})
  {
    assert BlockOk(H, ctl, p) && BlockOk(H, ctl, b);
    AbsorbReady(m, H, ctl, p, b);
    StepAbsorb(m, heads, H, F, D, pools, ctl, m', p, b);
  }

  // ------------------------------------------------------------------ writes by the owner of a block

  /** Whatever its owner writes into the payload of a used block, even into the last word, which the
      next header overlays as prev_phys_block, the heap stays intact. */
  lemma PayloadWrite(m: seq<Word>, heads: seq<int>, H: Blocks, F: Members, D: set<int>, pools: set<Pool>, ctl: int,
                     m': seq<Word>, u: int)
    requires HeapOk(m, heads, H, F, D, pools, ctl) && u in H && H[u].Used() && |m'| == |m|
    requires forall i :: At(m', i) != At(m, i) ==> u + 2 <= i <= Next(H, u)
    ensures HeapOk(m', heads, H, F, D, pools, ctl) && SameAllocs(m, H, m', H, {u})
  {
    assert BlockOk(H, ctl, u);
    forall q | q in H ensures StoredAt(m', H, q) {
      assert StoredAt(m, H, q) && BlockOk(H, ctl, q);
      if H[q].prevFree { assert BlockOk(H, ctl, At(m, q)); }
    }
    InsideFrame(m, H, ctl, m', heads, F, D, u);
    forall q | q in H && q != u && H[q].Used() ensures SamePayload(m, H, m', q) { assert BlockOk(H, ctl, q); }
  }

  // ------------------------------------------------------------------ neighbours

  /** A free block that is alone in D merges with nothing further once its neighbours are not on lists. */
  lemma InsertKeepsCoalesced(H: Blocks, F: Members, F': Members, pools: set<Pool>, ctl: int, b: int)
    requires Shape(H, pools, ctl) && FreeOk(H, F, {b}) && Coalesced(H, F)
    requires b in H && !H[b].prevFree && Next(H, b) !in F && F'.Keys == F.Keys + {b}
    ensures Coalesced(H, F')
  {
    forall q | q in F' && q in H ensures Next(H, q) !in F' {
      assert BlockOk(H, ctl, q) && BlockOk(H, ctl, b);
    }
  }

  /** Putting the remainder of a detached block on a list puts no two members side by side. */
  lemma TrimCoalesced(H: Blocks, F: Members, F': Members, ctl: int, b: int, s: int)
    requires BlocksOk(H, ctl) && FreeOk(H, F, {b}) && Coalesced(H, F) && CanSplit(H, ctl, b, s) && Next(H, b) !in F
    requires F'.Keys == F.Keys + {b + 1 + s}
    ensures Coalesced(Split(H, b, s), F')
  {
    var H', r := Split(H, b, s), b + 1 + s;
    assert r !in H;
    forall q | q in F' && q in H' ensures Next(H', q) !in F' {
      if q in H { assert BlockOk(H, ctl, q); }
    }
  }

  lemma AbsorbCoalesced(H: Blocks, F: Members, pools: set<Pool>, ctl: int, p: int, b: int)
    requires BlocksOk(H, ctl) && Coalesced(H, F) && p !in F && b !in F
    requires p in H && b in H && Next(H, p) == b && H[p].n > 0 && H[b].n > 0
    ensures Coalesced(Absorb(H, p, b), F)
  {
    forall q | q in F && q in Absorb(H, p, b) ensures Next(Absorb(H, p, b), q) !in F {}
  }

  /** The free block before a detached one is on a list and has no free block before it. */
  lemma PredecessorOnList(m: seq<Word>, heads: seq<int>, H: Blocks, F: Members, pools: set<Pool>, ctl: int, b: int)
    requires HeapOk(m, heads, H, F, {b}, pools, ctl) && Coalesced(H, F) && b in H && H[b].prevFree
    ensures At(m, b) in F && At(m, b) in H && Next(H, At(m, b)) == b && !H[At(m, b)].prevFree && 0 <= b < |m|
    ensures H[At(m, b)].n > 0 && At(m, b) < b
  {
    ReadHeader(m, H, ctl, b);
    var p := At(m, b);
    ReadHeader(m, H, ctl, p);
    if H[p].prevFree {
      ReadHeader(m, H, ctl, At(m, p));
    }
  }

  /** The successor of a listed block is on no list, and that of a detached block keeps its place. */
  lemma SuccessorOfMember(m: seq<Word>, heads: seq<int>, H: Blocks, F: Members, D: set<int>, pools: set<Pool>,
                          ctl: int, b: int)
    requires HeapOk(m, heads, H, F, D, pools, ctl) && Coalesced(H, F) && b in F
    ensures b in H && H[b].n > 0 && Next(H, b) in H && Next(H, b) !in F
    ensures 0 < b && b + 1 < |m| && b + 1 <= Next(H, b) < |m|
  {
    ReadHeader(m, H, ctl, b);
  }

  lemma JoinStep(m: seq<Word>, m1: seq<Word>, heads: seq<int>, H: Blocks, F: Members, pools: set<Pool>, ctl: int,
                 m': seq<Word>, p: int, b: int)
    requires HeapOk(m1, heads, H, F, {p, b}, pools, ctl)
    requires SameAllocs(m, H, m1, H, {}) && Coalesced(H, F) && |m1| <= 0x4000_0000
    requires p in H && b in H && b == Next(H, p) && AbsorbRoom(m1, p, b) && m' == AbsorbMem(m1, p, b)
    ensures HeapOk(m', heads, Absorb(H, p, b), F, {p}, pools, ctl) && Coalesced(Absorb(H, p, b), F)
    ensures SameAllocs(m, H, m', Absorb(H, p, b), {})
  {
    assert BlockOk(H, ctl, p) && BlockOk(H, ctl, b);
    AbsorbStep(m1, heads, H, F, {p, b}, pools, ctl, m', p, b);
    AbsorbCoalesced(H, F, pools, ctl, p, b);
    assert {p, b} - {b} == {p};
    SameAllocsTrans(m, H, m1, H, m', Absorb(H, p, b), {});
  }

  /** Splitting a used block: the remainder is detached and what stays of the payload is untouched. */
  lemma SplitUsedStep(m: seq<Word>, heads: seq<int>, H: Blocks, F: Members, pools: set<Pool>, ctl: int,
                      m': seq<Word>, b: int, size: int)
    requires HeapOk(m, heads, H, F, {}, pools, ctl) && Coalesced(H, F)
    requires b in H && H[b].Used() && Next(H, b) in H && |m| <= 0x4000_0000
    requires 12 <= size && size % 4 == 0 && size + 16 <= 4 * H[b].n
    requires SplitRoom(m, b, size / 4) && m' == SplitMem(m, b, size / 4, false)
    ensures var r, H' := b + 1 + size / 4, Split(H, b, size / 4);
            && HeapOk(m', heads, H', F, {r}, pools, ctl) && Coalesced(H', F)
            && SameAllocs(m, H, m', H', {b}) && SamePayload(m', H', m, b)
            && Next(H', r) in H' && !H'[r].prevFree && H'[b].Used() && 4 * H'[b].n == size
  {
    SplitReady(m, H, ctl, b, size);
    SplitStep(m, heads, H, F, {}, pools, ctl, m', b, size / 4);
    assert {} + {b + 1 + size / 4} == {b + 1 + size / 4};
    assert b + 1 + size / 4 !in H;
  }

  /** Putting a merged, detached block back on a list ends the operation. */
  lemma SamePayloadTrans(m: seq<Word>, m': seq<Word>, H': Blocks, m'': seq<Word>, H'': Blocks, b: int)
    requires b in H' && H'[b].Used() && SamePayload(m', H', m, b) && SameAllocs(m', H', m'', H'', {})
    ensures b in H'' && H''[b].Used() && H''[b].n == H'[b].n && SamePayload(m'', H'', m, b)
  {
    assert SamePayload(m', H', m'', b);
  }

  // ------------------------------------------------------------------ what a search means

  /** When no list from class `c` on has a head, no free block is of class `c` or above. */
  lemma NothingFits(m: seq<Word>, heads: seq<int>, F: Members, ctl: int, c: nat)
    requires Lists(m, heads, F, ctl) && (c >= CLASSES || Least(heads, ctl, c, CLASSES))
    ensures forall q :: q in F ==> F[q].cls < c
  {
    forall q | q in F ensures F[q].cls < c {
      FollowComplete(m, heads, F, ctl, q, F.Keys);
      assert Placed(m, ctl, heads[F[q].cls]);
    }
  }

  /** The head of the first non-empty list at or after the class of a request is big enough, and no
      smaller class that would do has a block. */
  lemma FoundFits(m: seq<Word>, heads: seq<int>, H: Blocks, F: Members, pools: set<Pool>, ctl: int, size: nat, c: nat)
    requires HeapOk(m, heads, H, F, {}, pools, ctl) && Coalesced(H, F) && size % 4 == 0
    requires c < CLASSES && heads[c] != ctl && Least(heads, ctl, Class(RoundUp(size)), c)
    ensures var b := heads[c];
            && b in F && F[b].cls == c && b in H && size <= 4 * H[b].n && !H[b].prevFree
            && Next(H, b) in H && Next(H, b) !in F && Coalesced(H, F - {b}) && {} + {b} == {b}
    ensures forall q :: q in F && F[q].cls < c ==> F[q].cls < Class(RoundUp(size))
  {
    var b := heads[c];
    assert HeadOk(m, heads, F, ctl, c);
    SuccessorOfMember(m, heads, H, F, {}, pools, ctl, b);
    GoodFit(4 * H[b].n, size);
    ReadHeader(m, H, ctl, b);
    forall q | q in F && F[q].cls < c ensures F[q].cls < Class(RoundUp(size)) {
      FollowComplete(m, heads, F, ctl, q, F.Keys);
      assert Placed(m, ctl, heads[F[q].cls]);
    }
  }

  lemma FlaggedCoalesced(H: Blocks, F: Members, b: int, free: bool)
    requires Coalesced(H, F) && b in H && Next(H, b) in H
    ensures Coalesced(Flagged(H, b, free), F)
  {}

  /** Block `b` can be given `need` bytes where it is: it has them, or its successor is free and both together
      with the header between them have. */
  ghost predicate RoomInPlace(H: Blocks, b: int, need: int) {
    b in H && (need <= 4 * H[b].n
               || (Next(H, b) in H && H[Next(H, b)].free && need <= 4 * H[b].n + 4 * H[Next(H, b)].n + 4))
  }

  /** No list that a request of `size` bytes searches has a block. */
  ghost predicate NoFit(F: Members, size: nat) {
    forall q :: q in F ==> F[q].cls < Class(RoundUp(size))
  }

  /** Block `b` is from the least of the searched classes that have one. */
  ghost predicate LeastFit(F: Members, b: int, size: nat) {
    b in F && forall q :: q in F && F[q].cls < F[b].cls ==> F[q].cls < Class(RoundUp(size))
  }

  lemma FreeTrans(m: seq<Word>, H: Blocks, m1: seq<Word>, H1: Blocks, m2: seq<Word>, H2: Blocks, m': seq<Word>,
                  H': Blocks, b: int)
    requires SameAllocs(m, H, m1, H1, {b}) && SameAllocs(m1, H1, m2, H2, {}) && SameAllocs(m2, H2, m', H', {})
    requires b in H1 && H1[b].free
    ensures SameAllocs(m, H, m', H', {b}) && !(b in H' && H'[b].Used())
  {
    SameAllocsTrans(m1, H1, m2, H2, m', H', {});
    SameAllocsTrans(m, H, m1, H1, m', H', {b});
  }

  /** A live address names a used block; null is never live. */
  lemma LiveBlock(m: seq<Word>, H: Blocks, ctl: int, p: int)
    requires BlocksOk(H, ctl) && Stored(m, H) && |m| <= 0x4000_0000
    ensures p in Live(H) ==>
      p % 4 == 0 && 0 < p / 4 - 2 && p / 4 - 2 in H && H[p / 4 - 2].Used() && Live(H)[p] == 4 * H[p / 4 - 2].n
    ensures p in Live(H) ==> p / 4 - 1 < |m| && p != 0
    ensures 0 !in Live(H)
  {
    LiveAt(H, p);
    LiveAt(H, 0);
    if p in Live(H) { ReadHeader(m, H, ctl, p / 4 - 2); }
    if -2 in H { assert BlockOk(H, ctl, -2); }
  }

  /** Putting the front of a detached block on a list puts no two members side by side. */
  lemma LeadCoalesced(H: Blocks, F: Members, F': Members, ctl: int, b: int, s: int)
    requires BlocksOk(H, ctl) && FreeOk(H, F, {b}) && Coalesced(H, F) && CanSplit(H, ctl, b, s) && Next(H, b) !in F
    requires !H[b].prevFree && F'.Keys == F.Keys + {b}
    ensures Coalesced(Split(H, b, s), F') && Next(Split(H, b, s), b + 1 + s) == Next(H, b) && Next(H, b) !in F'
    ensures b + 1 + s !in H
  {
    var H', r := Split(H, b, s), b + 1 + s;
    assert r !in H;
    forall q | q in F' && q in H' ensures Next(H', q) !in F' {
      if q in H { assert BlockOk(H, ctl, q); }
    }
  }

  /** Handing out block `r`, which was not in use before, as far as the live allocations are concerned;
      `b` is the block it was cut from. */
  lemma HandedOut(m: seq<Word>, H: Blocks, m1: seq<Word>, H1: Blocks, m': seq<Word>, H': Blocks, b: int, r: int)
    requires SameAllocs(m, H, m1, H1, {b}) && SameAllocs(m1, H1, m', H', {r})
    requires !(b in H && H[b].Used()) && !(b in H1 && H1[b].Used())
    requires !(r in H && H[r].Used()) && r in H' && H'[r].Used()
    ensures var p := 4 * (r + 2);
            p !in Live(H) && p in Live(H') && Live(H')[p] == 4 * H'[r].n && p % 4 == 0 && OthersKept(m, H, m', H', p)
  {
    var p := 4 * (r + 2);
    SameAllocsSwap(m, H, m1, H1, b, r);
    SameAllocsTrans(m, H, m1, H1, m', H', {r});
    OthersFromSame(m, H, m', H', {r}, r);
    LiveOf(H, r);
    LiveOf(H', r);
  }

  lemma SameAllocsSwap(m: seq<Word>, H: Blocks, m': seq<Word>, H': Blocks, b: int, r: int)
    requires SameAllocs(m, H, m', H', {b}) && !(b in H && H[b].Used()) && !(b in H' && H'[b].Used())
    ensures SameAllocs(m, H, m', H', {r})
  {}

  /** A located block that covers the padded request ends early enough for the gap computation. */
  lemma RoomForGap(m: seq<Word>, H: Blocks, ctl: int, b: int, align: Word, adjust: Word)
    requires BlocksOk(H, ctl) && Stored(m, H) && b in H && H[b].n > 0 && |m| <= 0x4000_0000
    ensures 0 < b && 0 <= 4 * (b + 2) < WORD_RANGE && (4 * (b + 2)) % 4 == 0
    ensures adjust >= 12 && adjust + align + 16 <= 4 * H[b].n ==> 4 * (b + 2) + align + 28 <= WORD_RANGE
  {
    ReadHeader(m, H, ctl, b);
  }

  lemma HandedOutVia(m: seq<Word>, m0: seq<Word>, H: Blocks, m1: seq<Word>, H1: Blocks, m': seq<Word>, H': Blocks,
                     b: int, r: int)
    requires SameAllocs(m, H, m0, H, {}) && SameAllocs(m0, H, m1, H1, {b}) && SameAllocs(m1, H1, m', H', {r})
    requires !(b in H && H[b].Used()) && !(b in H1 && H1[b].Used())
    requires !(r in H && H[r].Used()) && r in H' && H'[r].Used()
    ensures var p := 4 * (r + 2);
            p !in Live(H) && p in Live(H') && Live(H')[p] == 4 * H'[r].n && p % 4 == 0 && OthersKept(m, H, m', H', p)
  {
    SameAllocsTrans(m, H, m0, H, m1, H1, {b});
    HandedOut(m, H, m1, H1, m', H', b, r);
  }

  lemma SamePayloadVia(m: seq<Word>, H: Blocks, m1: seq<Word>, m': seq<Word>, b: int)
    requires b in H && H[b].Used() && SameAllocs(m, H, m1, H, {}) && SamePayload(m1, H, m', b)
    ensures SamePayload(m, H, m', b)
  {
    assert SamePayload(m, H, m1, b);
  }

  lemma CopyStep(m: seq<Word>, heads: seq<int>, H: Blocks, F: Members, pools: set<Pool>, ctl: int, m': seq<Word>,
                 c: int, b: int, words: nat)
    requires HeapOk(m, heads, H, F, {}, pools, ctl) && b in H && H[b].Used()
    requires c in H && H[c].Used() && b != c && words == H[b].n <= H[c].n
    requires 0 < b && 0 < c && b + 2 + words <= |m| && c + 2 + words <= |m| == |m'|
    requires forall i :: c + 2 <= i < c + 2 + words ==> m'[i] == m[i - (c + 2) + (b + 2)]
    requires forall i :: 0 <= i < |m| && !(c + 2 <= i < c + 2 + words) ==> m'[i] == m[i]
    ensures HeapOk(m', heads, H, F, {}, pools, ctl) && SameAllocs(m, H, m', H, {c})
    ensures CopiedWords(m, b + 2, m', c + 2, words)
  {
    PayloadWrite(m, heads, H, F, {}, pools, ctl, m', c);
  }

  lemma SameAllocsWeaken(m: seq<Word>, H: Blocks, m': seq<Word>, H': Blocks, X: set<int>, Y: set<int>)
    requires SameAllocs(m, H, m', H', X) && X <= Y
    ensures SameAllocs(m, H, m', H', Y)
  {}

  lemma Moved(m: seq<Word>, m1: seq<Word>, H: Blocks, m': seq<Word>, H': Blocks, b: int, c: int, words: int)
    requires SameAllocs(m, H, m1, H, {c}) && SameAllocs(m1, H, m', H', {b}) && b != c
    requires c in H && H[c].Used() && H[c].n >= words && CopiedWords(m, b + 2, m1, c + 2, words)
    ensures c in H' && H'[c].Used() && H'[c].n == H[c].n && SameAllocs(m, H, m', H', {b, c})
    ensures CopiedWords(m, b + 2, m', c + 2, words)
  {
    SameAllocsWeaken(m, H, m1, H, {c}, {b, c});
    SameAllocsWeaken(m1, H, m', H', {b}, {b, c});
    SameAllocsTrans(m, H, m1, H, m', H', {b, c});
    assert SamePayload(m1, H, m', c);
  }

  /** Allocating and then moving there. */
  lemma Relocated(m: seq<Word>, H: Blocks, m1: seq<Word>, H1: Blocks, m': seq<Word>, H': Blocks, b: int, c: int)
    requires SameAllocs(m, H, m1, H1, {c}) && SameAllocs(m1, H1, m', H', {b, c})
    requires b in H && H[b].Used() && !(c in H && H[c].Used())
    requires CopiedWords(m1, b + 2, m', c + 2, H[b].n)
    ensures SameAllocs(m, H, m', H', {b, c}) && CopiedWords(m, b + 2, m', c + 2, H[b].n)
  {
    SameAllocsWeaken(m, H, m1, H1, {c}, {b, c});
    SameAllocsTrans(m, H, m1, H1, m', H', {b, c});
    assert SamePayload(m, H, m1, b);
  }

  /** The payloads of two used blocks are disjoint ranges of memory. */
  lemma PayloadRanges(m: seq<Word>, H: Blocks, ctl: int, b: int, c: int)
    requires BlocksOk(H, ctl) && Stored(m, H) && b in H && c in H && b != c && H[b].n > 0 && H[c].n > 0
    ensures 0 < b && 0 < c && b + 2 + H[b].n <= |m| && c + 2 + H[c].n <= |m|
    ensures b + 2 + H[b].n <= c + 2 || c + 2 + H[c].n <= b + 2
  {
    ReadHeader(m, H, ctl, b);
    ReadHeader(m, H, ctl, c);
  }

  /** An allocation that must grow is copied whole: the smaller of its size and the request is its size. */
  lemma MinIsCurrent(cursize: Word, size: Word)
    requires cursize >= BLOCK_SIZE_MIN && cursize < Adjusted(size, 2) && cursize % 4 == 0
    ensures cursize <= size && 0 < size <= BLOCK_SIZE_MAX - 4
    ensures Pow2(2) == 4 && Adjusted(size, 2) % 4 == 0 && Adjusted(size, 2) < BLOCK_SIZE_MAX
  {
    AdjustWords(size);
    assert Pow2(2) == 4;
  }

  lemma AdjustFour(size: Word)
    requires Adjusted(size, 2) != 0
    ensures Pow2(2) == 4 && Adjusted(size, 2) % 4 == 0 && 12 <= Adjusted(size, 2) < BLOCK_SIZE_MAX
  {
    AdjustWords(size);
    assert Pow2(2) == 4;
  }

  function Min(a: int, b: int): int { if a < b then a else b }

  /** Growing and then trimming in place keeps the bytes that fit before and after. */
  lemma ResizedInPlace(m: seq<Word>, H: Blocks, m1: seq<Word>, H1: Blocks, m': seq<Word>, H': Blocks, b: int)
    requires SameAllocs(m, H, m1, H1, {b}) && SameAllocs(m1, H1, m', H', {b}) && b in H && b in H1 && b in H'
    requires SamePayload(m, H, m1, b) && SamePayload(m', H', m1, b)
    ensures SameAllocs(m, H, m', H', {b, b}) && CopiedWords(m, b + 2, m', b + 2, Min(H[b].n, H'[b].n))
  {
    SameAllocsTrans(m, H, m1, H1, m', H', {b});
    assert {b} == {b, b};
  }

  lemma OthersWeaken(m: seq<Word>, H: Blocks, m': seq<Word>, H': Blocks, p: int, q: int)
    requires OthersKept(m, H, m', H', p)
    ensures OthersKept2(m, H, m', H', p, q) && OthersKept2(m, H, m', H', q, p)
  {
    assert Live(H') - {p, q} == (Live(H') - {p}) - {q};
    assert Live(H) - {p, q} == (Live(H) - {p}) - {q};
    assert {p, q} == {q, p};
  }

  lemma OtherKept2(m: seq<Word>, H: Blocks, m': seq<Word>, H': Blocks, b: int, c: int, q: int)
    requires SameAllocs(m, H, m', H', {b, c}) && q != 4 * (b + 2) && q != 4 * (c + 2)
    ensures q in Live(H) <==> q in Live(H')
    ensures q in Live(H) ==> Live(H')[q] == Live(H)[q] && SameBytes(m, m', q, Live(H)[q])
  {
    LiveAt(H, q);
    LiveAt(H', q);
    var u := q / 4 - 2;
    if q in Live(H) { assert u != b && u != c && SamePayload(m, H, m', u); }
    if q in Live(H') { assert u != b && u != c; }
  }

  lemma OthersFromSame2(m: seq<Word>, H: Blocks, m': seq<Word>, H': Blocks, b: int, c: int)
    requires SameAllocs(m, H, m', H', {b, c})
    ensures OthersKept2(m, H, m', H', 4 * (b + 2), 4 * (c + 2))
  {
    forall q | q != 4 * (b + 2) && q != 4 * (c + 2) ensures q in Live(H) <==> q in Live(H')
      ensures q in Live(H) ==> Live(H')[q] == Live(H)[q] && SameBytes(m, m', q, Live(H)[q]) {
      OtherKept2(m, H, m', H', b, c, q);
    }
  }

  /** Resizing block `b` into block `c`, in terms of live allocations. */
  lemma ResizeResult(m: seq<Word>, H: Blocks, m': seq<Word>, H': Blocks, b: int, c: int)
    requires SameAllocs(m, H, m', H', {b, c}) && b in H && H[b].Used() && 0 <= b && 0 <= c
    requires c == 0 ==> m == m' && H == H'
    requires c != 0 ==> c in H' && H'[c].Used() && CopiedWords(m, b + 2, m', c + 2, Min(H[b].n, H'[c].n))
    requires c != 0 && c != b ==> !(c in H && H[c].Used()) && !(b in H' && H'[b].Used())
    ensures var ptr, p := 4 * (b + 2), if c == 0 then 0 else 4 * (c + 2);
            && OthersKept2(m, H, m', H', ptr, p) && ptr in Live(H) && Live(H)[ptr] == 4 * H[b].n
            && (p != 0 ==> p in Live(H') && Live(H')[p] == 4 * H'[c].n)
            && (p != 0 && p != ptr ==> p !in Live(H) && ptr !in Live(H'))
            && (p != 0 ==> CopiedWords(m, ptr / 4, m', p / 4, Min(Live(H)[ptr], Live(H')[p]) / 4))
  {
    LiveOf(H, b);
    LiveOf(H, c);
    LiveOf(H', b);
    LiveOf(H', c);
    if c != 0 {
      OthersFromSame2(m, H, m', H', b, c);
      assert Min(4 * H[b].n, 4 * H'[c].n) / 4 == Min(H[b].n, H'[c].n);
    }
  }

  lemma NullNotLive(m: seq<Word>, H: Blocks, ctl: int)
    requires BlocksOk(H, ctl) && Stored(m, H) && |m| <= 0x4000_0000
    ensures 0 !in Live(H)
  {
    LiveBlock(m, H, ctl, 0);
  }

  /** The payload address of a used block is a word. */
  lemma ReadBack(m: seq<Word>, H: Blocks, ctl: int, c: int)
    requires BlocksOk(H, ctl) && Stored(m, H) && |m| <= 0x4000_0000
    ensures c in H && H[c].Used() ==> 4 * (c + 2) < WORD_RANGE
  {
    if c in H { ReadHeader(m, H, ctl, c); }
  }

  /** What tlsf_check insists on for a block on list `F[b].cls`. */
  lemma MemberChecks(m: seq<Word>, heads: seq<int>, H: Blocks, F: Members, pools: set<Pool>, ctl: int, b: int)
    requires HeapOk(m, heads, H, F, {}, pools, ctl) && Coalesced(H, F) && b in F
    ensures b in H && H[b].free && !H[b].prevFree && H[b].n >= 3 && F[b].cls == Class(4 * H[b].n)
    ensures Next(H, b) in H && !H[Next(H, b)].free && H[Next(H, b)].prevFree
  {
    ReadHeader(m, H, ctl, b);
  }
}
