/** What a program that uses the allocator of system/tlsf.c sees: a collection of independent arrays.
    Every operation changes the array it is about and no other, over any sequence of operations,
    although headers, free lists and payloads share one memory. */
module TlsfClient {
  import opened Bits
  import opened TlsfMapping
  import opened TlsfAlign
  import opened TlsfHeap
  import opened TlsfFrames
  import opened TlsfSteps
  import opened TlsfPool
  import opened Tlsf

  datatype Op =
    | Malloc(size: Word)
    | Memalign(k: nat, size: Word)
    | Realloc(ptr: Word, newSize: Word)
    | Free(ptr: Word)
    | Store(ptr: Word, i: nat, v: Word)
    | AddPool(addr: Word, bytes: Word)

  /** The live arrays by address. */
  type View = map<int, seq<int>>

  /**
   * A program passes live pointers, indexes within bounds, alignments below 2^31 and sizes that some block
   * could have.
   */
  predicate Permitted(op: Op, view: View) {
    match op
    case Malloc(size) => size <= WORD_RANGE - 4
    case Memalign(k, size) => k <= 30 && size <= WORD_RANGE - 4
    case Realloc(ptr, size) => (ptr == 0 || ptr in view) && size <= BLOCK_SIZE_MAX - 4
    case Free(ptr) => ptr == 0 || ptr in view
    case Store(ptr, i, v) => ptr in view && i < |view[ptr]|
    case AddPool(_, _) => true
  }

  /** A region offered as a pool is in memory, clear of the control structure and of all pools so far, and not of
      the one size that no list can hold. */
  predicate RegionFree(words: nat, ctl: int, pools: set<Pool>, addr: Word, bytes: Word) {
    Accepted(addr, bytes) ==> PoolRegion(words, ctl, pools, addr, bytes) && PoolBytes(bytes) != BLOCK_SIZE_MAX
  }

  /** `view'` is `view` with a new array at `p`, big enough for `size` bytes. */
  predicate NewArray(view: View, view': View, p: Word, size: Word) {
    && p != 0 && p % 4 == 0 && p !in view && p in view' && size <= 4 * |view'[p]|
    && view' == view[p := view'[p]]
  }

  /** The array at `ptr` became the one at `p`, big enough for `size` bytes, keeping what fits of its contents. */
  predicate MovedArray(view: View, view': View, ptr: Word, p: Word, size: Word) {
    && p != 0 && ptr in view && p in view' && size <= 4 * |view'[p]| && (p != ptr ==> p !in view)
    && view' == (view - {ptr})[p := view'[p]]
    && forall i :: 0 <= i < |view[ptr]| && i < |view'[p]| ==> view'[p][i] == view[ptr][i]
  }

  /** What an operation that returned `p` may do to the arrays. */
  predicate Step(op: Op, view: View, view': View, p: Word) {
    match op
    case Malloc(size) => if p == 0 then view' == view else NewArray(view, view', p, size)
    case Memalign(k, size) =>
      if p == 0 then view' == view
      else NewArray(view, view', p, size) && Aligned(p, k) && p % Pow2(k) == 0
    case Realloc(ptr, size) =>
      if ptr != 0 && size == 0 then p == 0 && view' == view - {ptr}
      else if p == 0 then view' == view
      else if ptr == 0 then NewArray(view, view', p, size)
      else MovedArray(view, view', ptr, p, size)
    case Free(ptr) => view' == view - {ptr}
    case Store(ptr, i, v) => ptr in view && i < |view[ptr]| && view' == view[ptr := view[ptr][i := v]]
    case AddPool(addr, bytes) => view' == view && p == if Accepted(addr, bytes) then addr else 0
  }

  /** `n` words of memory from index `i` on. */
  ghost function Words(m: seq<Word>, i: int, n: int): seq<int> {
    if 0 <= i && 0 <= n && i + n <= |m| then m[i..i + n] else []
  }

  /** The arrays in memory `m` at the addresses and with the sizes of `L`. */
  ghost function Arrays(m: seq<Word>, L: map<int, int>): View {
    map p | p in L :: Words(m, p / 4, L[p] / 4)
  }

  ghost function ViewOf(m: seq<Word>, H: Blocks): View {
    Arrays(m, Live(H))
  }

  ghost predicate Fits(m: seq<Word>, L: map<int, int>) {
    forall p :: p in L ==>
      p % 4 == 0 && 0 <= p / 4 && 0 <= L[p] / 4 && p / 4 + L[p] / 4 <= |m| && 4 * (L[p] / 4) == L[p]
  }

  lemma LiveFits(m: seq<Word>, H: Blocks, ctl: int)
    requires BlocksOk(H, ctl) && Stored(m, H) && |m| <= 0x4000_0000
    ensures Fits(m, Live(H)) && 0 !in Live(H)
  {
    NullNotLive(m, H, ctl);
    forall p | p in Live(H)
      ensures p % 4 == 0 && 0 <= p / 4 && 0 <= Live(H)[p] / 4 && p / 4 + Live(H)[p] / 4 <= |m|
      ensures 4 * (Live(H)[p] / 4) == Live(H)[p]
    {
      LiveBlock(m, H, ctl, p);
      BlockFits(m, H, ctl, p / 4 - 2);
    }
  }

  lemma BlockFits(m: seq<Word>, H: Blocks, ctl: int, b: int)
    requires BlocksOk(H, ctl) && Stored(m, H) && b in H
    ensures 0 < b && 0 <= H[b].n && b + 2 + H[b].n <= |m|
  {
    assert BlockOk(H, ctl, b) && StoredAt(m, H, b);
  }

  lemma AllocatorFits(a: Allocator)
    requires a.Valid()
    ensures Fits(a.mem[..], Live(a.H)) && 0 !in Live(a.H)
  {
    LiveFits(a.mem[..], a.H, a.ctl);
  }

  /** The allocations at addresses other than `p` and `q` are the same. */
  ghost predicate Kept(m: seq<Word>, L: map<int, int>, m': seq<Word>, L': map<int, int>, p: int, q: int) {
    && L' - {p, q} == L - {p, q}
    && forall r :: r in L && r != p && r != q ==> SameBytes(m, m', r, L[r])
  }

  lemma KeptFromOthers(m: seq<Word>, H: Blocks, m': seq<Word>, H': Blocks, p: int)
    requires OthersKept(m, H, m', H', p)
    ensures Kept(m, Live(H), m', Live(H'), p, p)
  {
    OthersWeaken(m, H, m', H', p, p);
  }

  lemma KeptFromOthers2(m: seq<Word>, H: Blocks, m': seq<Word>, H': Blocks, p: int, q: int)
    requires OthersKept2(m, H, m', H', p, q)
    ensures Kept(m, Live(H), m', Live(H'), p, q)
  {}

  lemma SameWords(m: seq<Word>, m': seq<Word>, i: int, n: int)
    requires 0 <= i && 0 <= n && i + n <= |m| && i + n <= |m'|
    requires forall k :: i <= k < i + n ==> At(m', k) == At(m, k)
    ensures Words(m', i, n) == Words(m, i, n)
  {
    forall k | 0 <= k < n ensures Words(m', i, n)[k] == Words(m, i, n)[k] {
      assert At(m', i + k) == At(m, i + k);
    }
  }

  lemma ViewKept(m: seq<Word>, L: map<int, int>, m': seq<Word>, L': map<int, int>, p: int, q: int)
    requires Fits(m, L) && Fits(m', L') && Kept(m, L, m', L', p, q)
    ensures Arrays(m', L') - {p, q} == Arrays(m, L) - {p, q}
  {
    forall r | r != p && r != q ensures r in L <==> r in L'
      ensures r in L ==> Arrays(m, L)[r] == Arrays(m', L')[r] {
      assert r in L <==> r in L - {p, q};
      assert r in L' <==> r in L' - {p, q};
      if r in L {
        assert L'[r] == (L' - {p, q})[r];
        SameWords(m, m', r / 4, L[r] / 4);
      }
    }
  }

  /** A new live allocation is a new array. */
  lemma NewView(m: seq<Word>, L: map<int, int>, m': seq<Word>, L': map<int, int>, p: Word, size: Word)
    requires Fits(m, L) && Fits(m', L') && Kept(m, L, m', L', p, p)
    requires p != 0 && p !in L && p in L' && size <= L'[p]
    ensures NewArray(Arrays(m, L), Arrays(m', L'), p, size)
  {
    ViewKept(m, L, m', L', p, p);
    ReplaceOne(Arrays(m, L), Arrays(m', L'), p);
  }

  lemma ReplaceOne(v: View, v': View, p: int)
    requires v' - {p, p} == v - {p, p}
    ensures p in v' ==> v' == v[p := v'[p]]
    ensures p !in v' ==> v' == v - {p}
  {
    assert forall r :: r != p ==> (r in v' <==> r in v' - {p, p}) && (r in v <==> r in v - {p, p});
    assert forall r :: r != p && r in v' ==> v'[r] == (v' - {p, p})[r] == v[r];
  }

  lemma ReplaceTwo(v: View, v': View, p: int, q: int)
    requires v' - {p, q} == v - {p, q} && q in v' && (p != q ==> p !in v')
    ensures v' == (v - {p})[q := v'[q]]
  {
    assert forall r :: r != p && r != q ==> (r in v' <==> r in v' - {p, q}) && (r in v <==> r in v - {p, q});
    assert forall r :: r != p && r != q && r in v' ==> v'[r] == (v' - {p, q})[r] == v[r];
  }

  lemma GoneView(m: seq<Word>, L: map<int, int>, m': seq<Word>, L': map<int, int>, p: int)
    requires Fits(m, L) && Fits(m', L') && Kept(m, L, m', L', p, p) && p !in L'
    ensures Arrays(m', L') == Arrays(m, L) - {p}
  {
    ViewKept(m, L, m', L', p, p);
    ReplaceOne(Arrays(m, L), Arrays(m', L'), p);
  }

  lemma StoredView(m: seq<Word>, L: map<int, int>, m': seq<Word>, p: Word, i: nat, v: Word)
    requires Fits(m, L) && Fits(m', L) && Kept(m, L, m', L, p, p) && p in L && i < L[p] / 4
    requires p / 4 + i < |m| && m' == m[p / 4 + i := v]
    ensures Step(Store(p, i, v), Arrays(m, L), Arrays(m', L), 0)
  {
    ViewKept(m, L, m', L, p, p);
    ReplaceOne(Arrays(m, L), Arrays(m', L), p);
    assert Words(m', p / 4, L[p] / 4) == Words(m, p / 4, L[p] / 4)[i := v];
  }

  lemma MovedView(m: seq<Word>, L: map<int, int>, m': seq<Word>, L': map<int, int>, ptr: Word, p: Word, size: Word)
    requires Fits(m, L) && Fits(m', L') && Kept(m, L, m', L', ptr, p)
    requires p != 0 && ptr in L && p in L' && size <= L'[p] && (p != ptr ==> p !in L && ptr !in L')
    requires CopiedWords(m, ptr / 4, m', p / 4, Min(L[ptr], L'[p]) / 4)
    ensures MovedArray(Arrays(m, L), Arrays(m', L'), ptr, p, size)
  {
    ViewKept(m, L, m', L', ptr, p);
    ReplaceTwo(Arrays(m, L), Arrays(m', L'), ptr, p);
    CopiedPrefix(m, ptr / 4, L[ptr] / 4, m', p / 4, L'[p] / 4, Min(L[ptr], L'[p]) / 4);
  }

  lemma CopiedPrefix(m: seq<Word>, i: int, n: int, m': seq<Word>, j: int, n': int, words: int)
    requires 0 <= i && 0 <= n && i + n <= |m| && 0 <= j && 0 <= n' && j + n' <= |m'|
    requires CopiedWords(m, i, m', j, words) && (words >= n || words >= n')
    ensures forall k :: 0 <= k < n && k < n' ==> Words(m', j, n')[k] == Words(m, i, n)[k]
  {
    forall k | 0 <= k < n && k < n' ensures Words(m', j, n')[k] == Words(m, i, n)[k] {
      assert At(m', j + k) == At(m, j + k - j + i);
    }
  }

  lemma InView(m: seq<Word>, H: Blocks, p: int)
    requires Fits(m, Live(H))
    ensures p in ViewOf(m, H) <==> p in Live(H)
    ensures p in Live(H) ==> |ViewOf(m, H)[p]| == Live(H)[p] / 4
  {}

  method PerformMalloc(a: Allocator, size: Word) returns (p: Word)
    requires a.Valid() && size <= WORD_RANGE - 4
    modifies a`flBitmap, a`F, a`H, a.mem, a.slBitmap, a.blocks
    ensures a.Valid() && Step(Malloc(size), old(ViewOf(a.mem[..], a.H)), ViewOf(a.mem[..], a.H), p)
  {
    AllocatorFits(a);
    p := a.Malloc(size);
    AllocatorFits(a);
    KeptFromOthers(old(a.mem[..]), old(a.H), a.mem[..], a.H, p);
    if p != 0 { NewView(old(a.mem[..]), Live(old(a.H)), a.mem[..], Live(a.H), p, size); }
  }

  method PerformMemalign(a: Allocator, k: nat, size: Word) returns (p: Word)
    requires a.Valid() && k <= 30 && size <= WORD_RANGE - 4
    modifies a`flBitmap, a`F, a`H, a.mem, a.slBitmap, a.blocks
    ensures a.Valid() && Step(Memalign(k, size), old(ViewOf(a.mem[..], a.H)), ViewOf(a.mem[..], a.H), p)
  {
    AllocatorFits(a);
    Pow2Range(k);
    p := a.Memalign(Pow2(k), size, k);
    AllocatorFits(a);
    KeptFromOthers(old(a.mem[..]), old(a.H), a.mem[..], a.H, p);
    if p != 0 {
      NewView(old(a.mem[..]), Live(old(a.H)), a.mem[..], Live(a.H), p, size);
      AlignedMod(p, k);
    }
  }

  method PerformRealloc(a: Allocator, ptr: Word, size: Word) returns (p: Word)
    requires a.Valid() && Permitted(Realloc(ptr, size), ViewOf(a.mem[..], a.H))
    modifies a`flBitmap, a`F, a`H, a.mem, a.slBitmap, a.blocks
    ensures a.Valid() && Step(Realloc(ptr, size), old(ViewOf(a.mem[..], a.H)), ViewOf(a.mem[..], a.H), p)
  {
    AllocatorFits(a);
    InView(a.mem[..], a.H, ptr);
    AdjustWords(size);
    p := a.Realloc(ptr, size);
    AllocatorFits(a);
    KeptFromOthers2(old(a.mem[..]), old(a.H), a.mem[..], a.H, ptr, p);
    ReallocView(old(a.mem[..]), Live(old(a.H)), a.mem[..], Live(a.H), ptr, p, size);
  }

  method PerformFree(a: Allocator, ptr: Word)
    requires a.Valid() && Permitted(Free(ptr), ViewOf(a.mem[..], a.H))
    modifies a`flBitmap, a`F, a`H, a.mem, a.slBitmap, a.blocks
    ensures a.Valid() && Step(Free(ptr), old(ViewOf(a.mem[..], a.H)), ViewOf(a.mem[..], a.H), 0)
  {
    AllocatorFits(a);
    InView(a.mem[..], a.H, ptr);
    a.Free(ptr);
    AllocatorFits(a);
    KeptFromOthers(old(a.mem[..]), old(a.H), a.mem[..], a.H, ptr);
    GoneView(old(a.mem[..]), Live(old(a.H)), a.mem[..], Live(a.H), ptr);
  }

  method PerformStore(a: Allocator, ptr: Word, i: nat, v: Word)
    requires a.Valid() && Permitted(Store(ptr, i, v), ViewOf(a.mem[..], a.H))
    modifies a.mem
    ensures a.Valid() && Step(Store(ptr, i, v), old(ViewOf(a.mem[..], a.H)), ViewOf(a.mem[..], a.H), 0)
  {
    AllocatorFits(a);
    InView(a.mem[..], a.H, ptr);
    a.Store(ptr, i, v);
    AllocatorFits(a);
    KeptFromOthers(old(a.mem[..]), a.H, a.mem[..], a.H, ptr);
    StoredView(old(a.mem[..]), Live(a.H), a.mem[..], ptr, i, v);
  }

  method PerformAddPool(a: Allocator, addr: Word, bytes: Word) returns (p: Word)
    requires a.Valid() && RegionFree(a.mem.Length, a.ctl, a.pools, addr, bytes)
    modifies a`flBitmap, a`F, a`H, a`pools, a.mem, a.slBitmap, a.blocks
    ensures a.Valid() && Step(AddPool(addr, bytes), old(ViewOf(a.mem[..], a.H)), ViewOf(a.mem[..], a.H), p)
    ensures a.pools == PoolsAfter(old(a.pools), AddPool(addr, bytes))
  {
    AllocatorFits(a);
    p := a.AddPool(addr, bytes);
    AllocatorFits(a);
    SameView(old(a.mem[..]), old(a.H), a.mem[..], a.H, a.ctl);
  }

  lemma SameView(m: seq<Word>, H: Blocks, m': seq<Word>, H': Blocks, ctl: int)
    requires SameAllocs(m, H, m', H', {}) && Fits(m, Live(H)) && Fits(m', Live(H')) && 0 !in Live(H) && 0 !in Live(H')
    ensures ViewOf(m', H') == ViewOf(m, H)
  {
    OthersFromSame(m, H, m', H', {}, -2);
    KeptFromOthers(m, H, m', H', 0);
    ViewKept(m, Live(H), m', Live(H'), 0, 0);
    ReplaceOne(ViewOf(m, H), ViewOf(m', H'), 0);
  }

  /** The pools after an operation. */
  function PoolsAfter(pools: set<Pool>, op: Op): (r: set<Pool>) {
    if op.AddPool? && Accepted(op.addr, op.bytes) then pools + {PoolAt(op.addr, op.bytes)} else pools
  }

  /** Executes one operation; whatever it is, the arrays change as the operation says and no other way. */
  method Perform(a: Allocator, op: Op) returns (p: Word)
    requires a.Valid() && Permitted(op, ViewOf(a.mem[..], a.H))
    requires op.AddPool? ==> RegionFree(a.mem.Length, a.ctl, a.pools, op.addr, op.bytes)
    modifies a`flBitmap, a`F, a`H, a`pools, a.mem, a.slBitmap, a.blocks
    ensures a.Valid() && Step(op, old(ViewOf(a.mem[..], a.H)), ViewOf(a.mem[..], a.H), p)
    ensures a.pools == PoolsAfter(old(a.pools), op)
  {
    match op {
      case Free(ptr) => p := 0; PerformFree(a, ptr);
      case Store(ptr, i, v) => p := 0; PerformStore(a, ptr, i, v);
      case AddPool(addr, bytes) => p := PerformAddPool(a, addr, bytes);
      case _ => p := PerformAllocation(a, op);
    }
  }

  method PerformAllocation(a: Allocator, op: Op) returns (p: Word)
    requires a.Valid() && Permitted(op, ViewOf(a.mem[..], a.H)) && (op.Malloc? || op.Memalign? || op.Realloc?)
    modifies a`flBitmap, a`F, a`H, a.mem, a.slBitmap, a.blocks
    ensures a.Valid() && Step(op, old(ViewOf(a.mem[..], a.H)), ViewOf(a.mem[..], a.H), p)
  {
    match op {
      case Malloc(size) => p := PerformMalloc(a, size);
      case Memalign(k, size) => p := PerformMemalign(a, k, size);
      case Realloc(ptr, size) => p := PerformRealloc(a, ptr, size);
    }
  }

  lemma ReallocView(m: seq<Word>, L: map<int, int>, m': seq<Word>, L': map<int, int>, ptr: Word, p: Word, size: Word)
    requires Fits(m, L) && Fits(m', L') && Kept(m, L, m', L', ptr, p) && 0 !in L && 0 !in L' && (ptr == 0 || ptr in L)
    requires p == 0 && (ptr == 0 || size != 0) ==> L' == L && m' == m
    requires ptr != 0 && size == 0 ==> p == 0 && ptr !in L'
    requires p != 0 ==> p in L' && size <= L'[p] && (p != ptr ==> p !in L && ptr !in L')
    requires p != 0 && ptr != 0 ==> CopiedWords(m, ptr / 4, m', p / 4, Min(L[ptr], L'[p]) / 4)
    ensures Step(Realloc(ptr, size), Arrays(m, L), Arrays(m', L'), p)
  {
    if ptr != 0 && size == 0 {
      KeptOne(m, L, m', L', 0, ptr);
      GoneView(m, L, m', L', ptr);
    } else if p != 0 && ptr != 0 {
      MovedView(m, L, m', L', ptr, p, size);
    } else if p != 0 {
      KeptOne(m, L, m', L', 0, p);
      NewView(m, L, m', L', p, size);
    }
  }

  lemma KeptOne(m: seq<Word>, L: map<int, int>, m': seq<Word>, L': map<int, int>, z: int, p: int)
    requires z !in L && z !in L' && (Kept(m, L, m', L', z, p) || Kept(m, L, m', L', p, z))
    ensures Kept(m, L, m', L', p, p)
  {
    assert L' - {z, p} == L' - {p, p} && L - {z, p} == L - {p, p};
    assert L' - {p, z} == L' - {p, p} && L - {p, z} == L - {p, p};
  }

  // ------------------------------------------------------------------ whole runs

  /** The operation writes, resizes or frees the array at `p`. */
  predicate Touches(op: Op, p: int) {
    match op
    case Realloc(ptr, _) => ptr == p
    case Free(ptr) => ptr == p
    case Store(ptr, _, _) => ptr == p
    case _ => false
  }

  /** What the program knows: the arrays, and the regions given to the allocator. */
  datatype World = World(arrays: View, pools: set<Pool>)

  /** The memory is `words` words long and the control structure is at word `ctl`. */
  predicate MayDo(op: Op, w: World, words: nat, ctl: int) {
    Permitted(op, w.arrays) && (op.AddPool? ==> RegionFree(words, ctl, w.pools, op.addr, op.bytes))
  }

  ghost predicate Did(op: Op, w: World, w': World, p: Word) {
    Step(op, w.arrays, w'.arrays, p) && w'.pools == PoolsAfter(w.pools, op)
  }

  ghost predicate Run(log: seq<Op>, trace: seq<World>, results: seq<Word>, words: nat, ctl: int) {
    && |log| == |results| && |trace| == |log| + 1
    && forall k :: 0 <= k < |log| ==>
      MayDo(log[k], trace[k], words, ctl) && Did(log[k], trace[k], trace[k + 1], results[k])
  }

  /** What was written stays readable: an array is the same after any stretch of a run in which it is
      not written, resized or freed, whatever else is allocated, moved, written and freed meanwhile. */
  lemma {:induction false} UntouchedArrayPersists(log: seq<Op>, trace: seq<World>, results: seq<Word>, words: nat,
                                                  ctl: int, p: int, i: nat, j: nat)
    requires Run(log, trace, results, words, ctl) && i <= j <= |log| && p in trace[i].arrays
    requires forall k :: i <= k < j ==> !Touches(log[k], p)
    ensures p in trace[j].arrays && trace[j].arrays[p] == trace[i].arrays[p]
    decreases j
  {
    if i < j {
      UntouchedArrayPersists(log, trace, results, words, ctl, p, i, j - 1);
      assert Did(log[j - 1], trace[j - 1], trace[j], results[j - 1]);
    }
  }

  /** No address is handed out while it is live. */
  lemma FreshAddress(log: seq<Op>, trace: seq<World>, results: seq<Word>, words: nat, ctl: int, k: nat)
    requires Run(log, trace, results, words, ctl) && k < |log| && HandsOut(log[k], results[k])
    ensures results[k] !in trace[k].arrays && results[k] in trace[k + 1].arrays
  {
    assert Did(log[k], trace[k], trace[k + 1], results[k]);
  }

  /** The operation hands out an address, `p`. */
  predicate HandsOut(op: Op, p: Word) {
    p != 0 && (op.Malloc? || op.Memalign? || (op.Realloc? && op.ptr != p))
  }

  /** The operation gives up the array at `p`: frees it, or moves it away. */
  predicate GivesUp(op: Op, result: Word, p: Word) {
    match op
    case Free(ptr) => ptr == p
    case Realloc(ptr, size) => ptr == p && (size == 0 || (result != 0 && result != p))
    case _ => false
  }

  lemma {:induction false} StaysLive(log: seq<Op>, trace: seq<World>, results: seq<Word>, words: nat, ctl: int,
                                     p: Word, i: nat, j: nat)
    requires Run(log, trace, results, words, ctl) && i <= j <= |log| && p != 0 && p in trace[i].arrays
    requires forall k :: i <= k < j ==> !GivesUp(log[k], results[k], p)
    ensures p in trace[j].arrays
    decreases j
  {
    if i < j {
      StaysLive(log, trace, results, words, ctl, p, i, j - 1);
      assert Did(log[j - 1], trace[j - 1], trace[j], results[j - 1]);
    }
  }

  /** An address handed out twice in a run was given up in between. */
  lemma AddressReuse(log: seq<Op>, trace: seq<World>, results: seq<Word>, words: nat, ctl: int, i: nat, j: nat)
    requires Run(log, trace, results, words, ctl) && i < j < |log| && results[i] == results[j]
    requires HandsOut(log[i], results[i]) && HandsOut(log[j], results[j])
    ensures exists k :: i < k < j && GivesUp(log[k], results[k], results[i])
  {
    FreshAddress(log, trace, results, words, ctl, i);
    FreshAddress(log, trace, results, words, ctl, j);
    if forall k :: i < k < j ==> !GivesUp(log[k], results[k], results[i]) {
      StaysLive(log, trace, results, words, ctl, results[i], i + 1, j);
    }
  }

  predicate ReturnsArray(op: Op, p: int) { p != 0 && !op.Free? && !op.Store? && !op.AddPool? }

  /** The arrays after an operation, given the words found at the address it returned. */
  function NextView(op: Op, view: View, p: int, words: seq<int>): View {
    match op
    case Free(ptr) => view - {ptr}
    case Store(ptr, i, v) => if ptr in view && i < |view[ptr]| then view[ptr := view[ptr][i := v]] else view
    case Realloc(ptr, size) =>
      var rest := if ptr != 0 && (size == 0 || p != 0) then view - {ptr} else view;
      if p != 0 then rest[p := words] else rest
    case AddPool(_, _) => view
    case _ => if p != 0 then view[p := words] else view
  }

  lemma NextViewIs(op: Op, view: View, view': View, p: Word, words: seq<int>)
    requires Permitted(op, view) && Step(op, view, view', p) && 0 !in view
    requires ReturnsArray(op, p) ==> p in view' && words == view'[p]
    ensures view' == NextView(op, view, p, words)
  {}

  lemma ReturnedIsLive(op: Op, view: View, view': View, p: Word)
    requires Step(op, view, view', p) && ReturnsArray(op, p)
    ensures p in view'
  {}

  /** The words at the live address `p`, as many as tlsf_block_size says there are. */
  method ReadArray(a: Allocator, p: Word) returns (words: seq<int>)
    requires a.Valid() && p in Live(a.H)
    ensures words == ViewOf(a.mem[..], a.H)[p]
  {
    AllocatorFits(a);
    LiveBlock(a.mem[..], a.H, a.ctl, p);
    ReadHeader(a.mem[..], a.H, a.ctl, p / 4 - 2);
    var n := a.BlockSize(p / 4 - 2) / 4;
    words := a.mem[p / 4..p / 4 + n];
  }

  ghost function Now(a: Allocator): (w: World)
    reads a, a.mem
  {
    World(ViewOf(a.mem[..], a.H), a.pools)
  }

  /** One step of a run: perform the operation and read back the array it returned. */
  method Advance(a: Allocator, op: Op, w: World) returns (p: Word, w': World)
    requires a.Valid() && w == Now(a) && MayDo(op, w, a.mem.Length, a.ctl)
    modifies a`flBitmap, a`F, a`H, a`pools, a.mem, a.slBitmap, a.blocks
    ensures a.Valid() && w' == Now(a) && Did(op, w, w', p)
  {
    AllocatorFits(a);
    p := Perform(a, op);
    var words := [];
    if ReturnsArray(op, p) {
      ReturnedIsLive(op, w.arrays, ViewOf(a.mem[..], a.H), p);
      words := ReadArray(a, p);
    }
    NextViewIs(op, w.arrays, ViewOf(a.mem[..], a.H), p, words);
    w' := World(NextView(op, w.arrays, p, words), PoolsAfter(w.pools, op));
  }

  /** Every operation is the one the program chooses, given what is in its arrays then and the results before. */
  ghost predicate Chosen(program: (World, seq<Word>) -> Op, log: seq<Op>, trace: seq<World>, results: seq<Word>) {
    && |log| == |results| && |trace| == |log| + 1
    && forall k :: 0 <= k < |log| ==> log[k] == program(trace[k], results[..k])
  }

  /** A run so far, on an allocator that is now as in `w`. */
  ghost predicate Underway(a: Allocator, program: (World, seq<Word>) -> Op, log: seq<Op>, trace: seq<World>,
                           results: seq<Word>, w: World)
    reads a, a.mem, a.slBitmap, a.blocks
  {
    && a.Valid() && w == Now(a)
    && Run(log, trace, results, a.mem.Length, a.ctl) && Chosen(program, log, trace, results) && trace[|log|] == w
  }

  /** Any program, choosing its next operation from the results and the contents of its arrays: for as many
      steps as wanted, unless it asks for what it may not, the heap is intact, the arrays change as the
      operation says, and pools may join at any time. */
  method Execute(a: Allocator, program: (World, seq<Word>) -> Op, steps: nat, start: World)
    returns (log: seq<Op>, trace: seq<World>, results: seq<Word>)
    requires a.Valid() && start == Now(a)
    modifies a`flBitmap, a`F, a`H, a`pools, a.mem, a.slBitmap, a.blocks
    ensures a.Valid() && Run(log, trace, results, a.mem.Length, a.ctl) && Chosen(program, log, trace, results)
    ensures trace[0] == start && trace[|log|] == Now(a)
    ensures |log| <= steps
    ensures |log| < steps ==> !MayDo(program(trace[|log|], results), trace[|log|], a.mem.Length, a.ctl)
  {
    log, trace, results := Continue(a, program, steps, [], [start], [], start);
  }

  method Continue(a: Allocator, program: (World, seq<Word>) -> Op, steps: nat, log: seq<Op>, trace: seq<World>,
                  results: seq<Word>, w: World)
    returns (log': seq<Op>, trace': seq<World>, results': seq<Word>)
    requires Underway(a, program, log, trace, results, w)
    modifies a`flBitmap, a`F, a`H, a`pools, a.mem, a.slBitmap, a.blocks
    ensures a.Valid() && Run(log', trace', results', a.mem.Length, a.ctl) && Chosen(program, log', trace', results')
    ensures trace'[0] == trace[0] && trace'[|log'|] == Now(a)
    ensures |log'| <= |log| + steps
    ensures |log'| < |log| + steps ==>
      !MayDo(program(trace'[|log'|], results'), trace'[|log'|], a.mem.Length, a.ctl)
    decreases steps
  {
    var op := program(w, results);
    if steps == 0 || !MayDo(op, w, a.mem.Length, a.ctl) {
      return log, trace, results;
    }
    var p, w' := Advance(a, op, w);
    RunExtends(log, trace, results, a.mem.Length, a.ctl, op, w', p);
    ChosenExtends(program, log, trace, results, w', p);
    log', trace', results' := Continue(a, program, steps - 1, log + [op], trace + [w'], results + [p], w');
  }

  lemma ChosenExtends(program: (World, seq<Word>) -> Op, log: seq<Op>, trace: seq<World>, results: seq<Word>,
                      w: World, p: Word)
    requires Chosen(program, log, trace, results)
    ensures Chosen(program, log + [program(trace[|log|], results)], trace + [w], results + [p])
  {
    var log' := log + [program(trace[|log|], results)];
    forall k | 0 <= k < |log'| ensures log'[k] == program((trace + [w])[k], (results + [p])[..k]) {
      assert (results + [p])[..k] == results[..k];
      assert results[..|results|] == results;
    }
  }

  lemma RunExtends(log: seq<Op>, trace: seq<World>, results: seq<Word>, words: nat, ctl: int, op: Op, w: World, p: Word)
    requires Run(log, trace, results, words, ctl) && MayDo(op, trace[|log|], words, ctl) && Did(op, trace[|log|], w, p)
    ensures Run(log + [op], trace + [w], results + [p], words, ctl)
  {
    var log', trace', results' := log + [op], trace + [w], results + [p];
    forall k | 0 <= k < |log'|
      ensures MayDo(log'[k], trace'[k], words, ctl) && Did(log'[k], trace'[k], trace'[k + 1], results'[k])
    {
      if k < |log| { assert trace'[k] == trace[k] && trace'[k + 1] == trace[k + 1]; }
    }
  }
}
