/** Heaps on which the allocator of system/tlsf.c does not do what it promises. */
module TlsfLimits {
  import opened Bits
  import opened TlsfMapping
  import opened TlsfAlign
  import opened TlsfHeap
  import opened TlsfFrames
  import opened TlsfSteps
  import opened TlsfPool
  import opened TlsfOversize
  import opened Tlsf

  /** A heap of one pool of 1024 bytes, control structure first, nothing allocated. */
  method SmallHeap() returns (a: Allocator)
    ensures fresh(a) && fresh(a.mem) && fresh(a.slBitmap) && fresh(a.blocks) && a.Valid() && a.mem.Length == 1200
    ensures a.pools == {Pool(799, 1054)}
    ensures exists b :: b in a.F && b in a.H && a.H[b].n == 254
  {
    var memory := new Word[1200];
    a := new Allocator(memory, 1);
    Bytes1024();
    var pool := a.AddPool(4 * 800, 1024);
    ghost var b := PoolAt(4 * 800, 1024).first;
    assert b in a.H && a.H[b].free && a.H[b].n == 254;
  }

  lemma Bytes1024()
    ensures PoolBytes(1024) == 1016 && PoolAt(4 * 800, 1024) == Pool(799, 1054)
  {}

  /** A request for which a free block of 1016 bytes would do is never refused. */
  lemma WouldDo(H: Blocks, F: Members, D: set<int>, b: int, size: nat)
    requires FreeOk(H, F, D) && b in F && b in H && H[b].n == 254 && RoundUp(size) <= 1016
    ensures !NoFit(F, size)
  {
    ClassMono(RoundUp(size), 1016);
  }

  lemma SmallRoundUp()
    ensures RoundUp(16) == 16 && RoundUp(12) == 12
  {}

  lemma SmallRequests()
    ensures Adjusted(16, 2) == 16 && Adjusted(0x4000_0000, 2) == 0
  {
    AdjustWords(16);
    AdjustWords(0x4000_0000);
  }

  /** Asking tlsf_realloc for 2^30 bytes returns the old pointer and leaves a heap that no blocks tile. */
  method OversizeRealloc() returns (a: Allocator, p: Word, q: Word)
    ensures q == p != 0 && NoMap(a.mem[..], a.pools, a.ctl)
  {
    a := SmallHeap();
    SmallRequests();
    SmallRoundUp();
    ghost var b :| b in a.F && b in a.H && a.H[b].n == 254;
    WouldDo(a.H, a.F, {}, b, 16);
    p := a.Malloc(16);
    q := a.Realloc(p, 0x4000_0000);
  }

  /** At alignment 2^31 tlsf_memalign looks for 12 bytes whatever the size: on every heap it succeeds as soon
      as any block is free, and what it returns is aligned only if that happens to be address 2^31. */
  method HugeAlignment(a: Allocator, size: Word) returns (p: Word)
    requires a.Valid()
    modifies a`flBitmap, a`F, a`H, a.mem, a.slBitmap, a.blocks
    ensures a.Valid() && (p != 0 <==> Adjusted(size, 2) != 0 && old(a.F) != map[])
    ensures p != 0 ==> p !in Live(old(a.H)) && p in Live(a.H) && (Aligned(p, 31) <==> p == 0x8000_0000)
  {
    HugePadding(size);
    AnyWillDo(a.H, a.F, {}, a.ctl);
    p := a.Memalign(0x8000_0000, size, 31);
    LiveInMemory(a.mem[..], a.H, a.ctl, p);
    if p != 0 { TopAlignment(p); }
  }

  lemma HugePadding(size: Word)
    ensures Pow2(31) == 0x8000_0000
    ensures Padded(Adjusted(size, 2), 31) == if Adjusted(size, 2) == 0 then 0 else 12
  {
    AdjustWords(size);
    Pow2Consts();
    if Adjusted(size, 2) != 0 { PaddingCoversGap(Adjusted(size, 2), 0x8000_0000, 31); }
  }

  /** Any free block serves a request for 12 bytes. */
  lemma AnyWillDo(H: Blocks, F: Members, D: set<int>, ctl: int)
    requires FreeOk(H, F, D) && BlocksOk(H, ctl)
    ensures NoFit(F, 12) <==> F == map[]
  {
    SmallRoundUp();
    forall q | q in F ensures F[q].cls >= Class(12) {
      assert BlockOk(H, ctl, q);
      ClassMono(12, 4 * H[q].n);
    }
    forall q | q in F ensures !NoFit(F, 12) { assert F[q].cls >= Class(RoundUp(12)); }
    if NoFit(F, 12) { assert F.Keys == {}; }
  }

  /** On the small heap every request at that alignment succeeds, misaligned, and beyond 1016 bytes too small. */
  method SmallHugeAlignment(size: Word) returns (a: Allocator, p: Word)
    requires Adjusted(size, 2) != 0
    ensures a.Valid() && p != 0 && p in Live(a.H) && !Aligned(p, 31)
    ensures size > 1016 ==> Live(a.H)[p] < size
  {
    a := SmallHeap();
    p := HugeAlignment(a, size);
    LiveInMemory(a.mem[..], a.H, a.ctl, p);
    LiveDisjoint(a.mem[..], a.H, a.pools, a.ctl, p, p);
  }

  lemma LiveInMemory(m: seq<Word>, H: Blocks, ctl: int, p: int)
    requires BlocksOk(H, ctl) && Stored(m, H) && |m| <= 0x4000_0000
    ensures p in Live(H) ==> 0 < p && p + Live(H)[p] <= 4 * |m|
  {
    if p in Live(H) {
      LiveBlock(m, H, ctl, p);
      ReadHeader(m, H, ctl, p / 4 - 2);
    }
  }

  /** 2^31 is the only word but 0 that 2^31 divides. */
  lemma TopAlignment(p: Word)
    requires p > 0
    ensures Aligned(p, 31) <==> p == 0x8000_0000
  {
    Pow2Consts();
    if Aligned(p, 31) { AlignedMod(p, 31); }
    if p == 0x8000_0000 { PowerAligned(31); }
  }

  lemma {:induction false} PowerAligned(k: nat)
    ensures Aligned(Pow2(k), k)
  {
    if k > 0 { PowerAligned(k - 1); }
  }

  /** tlsf_add_pool lets one size through that no list can hold: exactly that of the largest pool. */
  lemma PoolHasList(bytes: Word)
    requires PoolAccepts(bytes)
    ensures Class(PoolBytes(bytes)) < CLASSES <==> PoolBytes(bytes) != BLOCK_SIZE_MAX
    ensures PoolAccepts(BLOCK_SIZE_MAX + 8) && PoolBytes(BLOCK_SIZE_MAX + 8) == BLOCK_SIZE_MAX
  {
    ClassInRange(PoolBytes(bytes));
  }
}
