/** What the words of a TLSF heap mean (system/tlsf.c).

    Memory is a sequence of 32-bit words and a block is named by the index of its header structure:
      word b      prev_phys_block, which is also the last payload word of the block before b
      word b+1    size in bytes, plus flag 1 "this block is free" and flag 2 "the previous block is free"
      word b+2    next_free, or the first payload word of a used block
      word b+3    prev_free, or the second payload word of a used block
    A block of n payload words owns words b+1 .. b+1+n, so `prev_phys_block` of the next block
    really aliases its last payload word. The ghost map `H` names the blocks the headers describe. */
module TlsfHeap {
  import opened Bits
  import opened TlsfMapping

  /** Words taken by the control structure: block_null, the two bitmap levels and the list heads. */
  const CONTROL_WORDS := 797

  ghost function At(m: seq<Word>, i: int): int {
    if 0 <= i < |m| then m[i] else 0
  }

  /** One header: payload words, "free" flag, "previous block is free" flag. */
  datatype Block = Block(n: int, free: bool, prevFree: bool) {
    predicate Used() { n > 0 && !free }
  }

  type Blocks = map<int, Block>

  /** The header word that describes a block. */
  function Header(k: Block): int {
    4 * k.n + (if k.free then 1 else 0) + (if k.prevFree then 2 else 0)
  }

  /** Setting and clearing the two flags of a header word. */
  function WithFree(w: Word): Word { if w % 2 == 1 then w else w + 1 }
  function WithPrevFree(w: Word): Word { if w / 2 % 2 == 1 then w else w + 2 }
  function NoFree(w: Word): Word { w - w % 2 }
  function NoPrevFree(w: Word): Word { if w / 2 % 2 == 1 then w - 2 else w }

  lemma HeaderFlags(k: Block, w: Word)
    requires 0 <= k.n < 0x1000_0000 && w == Header(k)
    ensures WithFree(w) == Header(k.(free := true)) && NoFree(w) == Header(k.(free := false))
    ensures WithPrevFree(w) == Header(k.(prevFree := true)) && NoPrevFree(w) == Header(k.(prevFree := false))
    ensures w / 4 == k.n && w % 4 == Header(k.(n := 0))
  {}

  /** Flagging the header of a fresh remainder, whose low bits are whatever the payload held. */
  lemma JunkFlags(rest: Word, junk: Word)
    requires rest % 4 == 0 && rest < 0x4000_0000
    ensures var w := WithFree(rest + junk % 4); WithPrevFree(w) == rest + 3 && NoPrevFree(w) == rest + 1
  {
    var q := rest / 4;
    assert rest == 4 * q;
    JunkFlagsOf(q, junk % 4);
  }

  /** The two lowest digits of 4q + c. */
  lemma LowDigits(q: nat, c: nat)
    requires c < 4
    ensures (4 * q + c) % 2 == c % 2 && (4 * q + c) / 2 == 2 * q + c / 2 && (2 * q + c / 2) % 2 == c / 2
  {}

  lemma JunkFlagsOf(q: nat, low: nat)
    requires q < 0x1000_0000 && low < 4
    ensures var w := WithFree(4 * q + low); WithPrevFree(w) == 4 * q + 3 && NoPrevFree(w) == 4 * q + 1
  {
    LowDigits(q, low);
    LowDigits(q, if low <= 1 then 1 else 3);
  }

  lemma SentinelFlags(junk: Word)
    ensures WithPrevFree(NoFree(0 + junk % 4)) == 2
  {}

  ghost function Next(H: Blocks, b: int): int
    requires b in H
  {
    b + 1 + H[b].n
  }

  // ------------------------------------------------------------------ physical structure

  /** Block `b` agrees with its right-hand neighbour and keeps clear of the control structure. */
  ghost predicate BlockOk(H: Blocks, ctl: int, b: int)
    requires b in H
  {
    && 0 < b && 0 <= H[b].n < 0x1000_0000
    && (ctl + CONTROL_WORDS <= b + 1 || Next(H, b) < ctl)
    && (H[b].n == 0 ==> !H[b].free)
    && (H[b].n > 0 ==> 3 <= H[b].n && Next(H, b) in H && H[Next(H, b)].prevFree == H[b].free)
  }

  ghost predicate Apart(H: Blocks) {
    forall b, c :: b in H && c in H && b < c ==> Next(H, b) <= c
  }

  ghost predicate BlocksOk(H: Blocks, ctl: int) {
    && (forall b {:trigger BlockOk(H, ctl, b)} :: b in H ==> BlockOk(H, ctl, b))
    && Apart(H)
  }

  /** The words in memory hold the header of block `b` and, if the block before it is free, the link to it. */
  ghost predicate StoredAt(m: seq<Word>, H: Blocks, b: int)
    requires b in H
  {
    && 0 <= b && Next(H, b) < |m|
    && At(m, b + 1) == Header(H[b])
    && (H[b].prevFree ==> At(m, b) in H && H[At(m, b)].free && Next(H, At(m, b)) == b)
  }

  ghost predicate Stored(m: seq<Word>, H: Blocks) {
    forall b {:trigger StoredAt(m, H, b)} :: b in H ==> StoredAt(m, H, b)
  }

  /** A pool runs from its first block to a zero-size sentinel. */
  datatype Pool = Pool(first: int, last: int)

  ghost predicate PoolOk(H: Blocks, p: Pool) {
    p.first in H && p.last in H && p.first < p.last <= p.first + 0x1000_0000 && H[p.last].n == 0 && !H[p.first].prevFree
  }

  ghost predicate InSome(H: Blocks, pools: set<Pool>, b: int)
    requires b in H
  {
    exists p :: p in pools && p.first <= b <= p.last && (H[b].n == 0 ==> b == p.last)
  }

  ghost predicate PoolsOk(H: Blocks, pools: set<Pool>) {
    && (forall p {:trigger PoolOk(H, p)} :: p in pools ==> PoolOk(H, p))
    && (forall p, q :: p in pools && q in pools && p != q ==> p.last < q.first || q.last < p.first)
    && (forall b {:trigger InSome(H, pools, b)} :: b in H ==> InSome(H, pools, b))
  }

  ghost predicate Shape(H: Blocks, pools: set<Pool>, ctl: int) {
    && BlocksOk(H, ctl)
    && PoolsOk(H, pools)
  }

  // ------------------------------------------------------------------ free lists

  /** A block on a list: the index of the list, and a rank that falls along next_free. */
  datatype Member = Member(cls: int, rank: int)

  type Members = map<int, Member>

  /** The free blocks are those on lists (F) and those momentarily on none (D), and every one of the
      former is filed under the class of its size. */
  ghost predicate FreeOk(H: Blocks, F: Members, D: set<int>) {
    && F.Keys !! D && F.Keys <= H.Keys && D <= H.Keys
    && (forall b :: b in H ==> (H[b].free <==> b in F || b in D))
    && (forall b :: b in F ==> H[b].n >= 0 && F[b].cls == Class(4 * H[b].n))
  }

  /** No two blocks on lists are neighbours. */
  ghost predicate Coalesced(H: Blocks, F: Members) {
    forall b :: b in F && b in H ==> Next(H, b) !in F
  }

  /** The next_free link of `b`; `nil` is block_null. */
  ghost predicate NextOk(m: seq<Word>, F: Members, nil: int, b: int)
    requires b in F
  {
    var nx := At(m, b + 2);
    nx != nil ==> nx in F && F[nx].cls == F[b].cls && At(m, nx + 3) == b && F[nx].rank < F[b].rank
  }

  /** The prev_free link of `b`, which is block_null for the first block of a list. */
  ghost predicate PrevOk(m: seq<Word>, heads: seq<int>, F: Members, nil: int, b: int)
    requires b in F
  {
    var pv, c := At(m, b + 3), F[b].cls;
    0 <= c < |heads| && if pv == nil then heads[c] == b else pv in F && At(m, pv + 2) == b
  }

  ghost predicate Linked(m: seq<Word>, heads: seq<int>, F: Members, nil: int, b: int)
    requires b in F
  {
    NextOk(m, F, nil, b) && PrevOk(m, heads, F, nil, b)
  }

  ghost predicate HeadOk(m: seq<Word>, heads: seq<int>, F: Members, nil: int, c: int) {
    && 0 <= c < |heads|
    && (heads[c] != nil ==> heads[c] in F && F[heads[c]].cls == c && At(m, heads[c] + 3) == nil)
  }

  /** Block `b` overlaps neither block_null nor memory's end. */
  ghost predicate Placed(m: seq<Word>, nil: int, b: int) {
    0 <= b && b + 3 < |m| && (b + 3 < nil || nil + 3 < b)
  }

  ghost predicate Lists(m: seq<Word>, heads: seq<int>, F: Members, nil: int) {
    && |heads| == CLASSES && 0 <= nil && nil + 3 < |m|
    && (forall b :: b in F ==> Placed(m, nil, b))
    && (forall b, c :: b in F && c in F && b < c ==> b + 3 < c)
    && (forall b {:trigger Linked(m, heads, F, nil, b)} :: b in F ==> Linked(m, heads, F, nil, b))
    && (forall c :: 0 <= c < CLASSES ==> HeadOk(m, heads, F, nil, c))
  }

  // ------------------------------------------------------------------ allocations

  /** The used blocks outside `X`, their sizes and their payload words are the same on both sides. */
  ghost predicate SameAllocs(m: seq<Word>, H: Blocks, m': seq<Word>, H': Blocks, X: set<int>) {
    && |m| == |m'|
    && (forall u :: u in H && u !in X && H[u].Used() ==>
          u in H' && H'[u].Used() && H'[u].n == H[u].n && SamePayload(m, H, m', u))
    && (forall u :: u in H' && u !in X && H'[u].Used() ==> u in H && H[u].Used())
  }

  ghost predicate SamePayload(m: seq<Word>, H: Blocks, m': seq<Word>, u: int)
    requires u in H
  {
    forall i :: u + 2 <= i <= Next(H, u) ==> At(m', i) == At(m, i)
  }

  lemma SameAllocsRefl(m: seq<Word>, H: Blocks, X: set<int>)
    ensures SameAllocs(m, H, m, H, X)
  {}

  lemma SameAllocsTrans(m: seq<Word>, H: Blocks, m': seq<Word>, H': Blocks, m'': seq<Word>, H'': Blocks, X: set<int>)
    requires SameAllocs(m, H, m', H', X) && SameAllocs(m', H', m'', H'', X)
    ensures SameAllocs(m, H, m'', H'', X)
  {
    forall u | u in H && u !in X && H[u].Used() ensures SamePayload(m, H, m'', u) {
      assert SamePayload(m, H, m', u) && SamePayload(m', H', m'', u);
    }
  }

  /** A used block has its payload at byte address `p`. */
  ghost predicate LiveHere(H: Blocks, p: int) {
    p % 4 == 0 && p / 4 - 2 in H && H[p / 4 - 2].Used()
  }

  ghost predicate AllLive(H: Blocks, L: map<int, int>) {
    && (forall p :: p in L <==> LiveHere(H, p))
    && (forall p :: p in L ==> L[p] == 4 * H[p / 4 - 2].n)
  }

  /** The live allocations: payload address to size, in bytes. */
  ghost function Live(H: Blocks): (L: map<int, int>)
    ensures AllLive(H, L)
  {
    LiveExists(H);
    var L :| AllLive(H, L);
    L
  }

  function Payload(b: int): (p: int) { 4 * (b + 2) }

  lemma LiveExists(H: Blocks)
    ensures exists L :: AllLive(H, L)
  {
    var A := set b | b in H && H[b].Used() :: Payload(b);
    forall p ensures p in A <==> LiveHere(H, p) {
      if LiveHere(H, p) { assert Payload(p / 4 - 2) == p; }
    }
    assert AllLive(H, map p | p in A :: 4 * H[p / 4 - 2].n);
  }

  /** `len` bytes of whole words at byte address `p` are the same on both sides. */
  ghost predicate SameBytes(m: seq<Word>, m': seq<Word>, p: int, len: int) {
    forall i :: p / 4 <= i < p / 4 + len / 4 ==> At(m', i) == At(m, i)
  }

  /** Every live allocation other than the one at `p` keeps its place, its size and its bytes. */
  ghost predicate OthersKept(m: seq<Word>, H: Blocks, m': seq<Word>, H': Blocks, p: int) {
    && Live(H') - {p} == Live(H) - {p}
    && forall q :: q in Live(H) && q != p ==> SameBytes(m, m', q, Live(H)[q])
  }

  /** `words` words from index `i` on before are at `j` on after. */
  ghost predicate CopiedWords(m: seq<Word>, i: int, m': seq<Word>, j: int, words: int) {
    forall k :: j <= k < j + words ==> At(m', k) == At(m, k - j + i)
  }

  /** Every live allocation other than those at `p` and `q` keeps its place, its size and its bytes. */
  ghost predicate OthersKept2(m: seq<Word>, H: Blocks, m': seq<Word>, H': Blocks, p: int, q: int) {
    && Live(H') - {p, q} == Live(H) - {p, q}
    && forall r :: r in Live(H) && r != p && r != q ==> SameBytes(m, m', r, Live(H)[r])
  }

  lemma LiveAt(H: Blocks, p: int)
    ensures p in Live(H) <==> p % 4 == 0 && p / 4 - 2 in H && H[p / 4 - 2].Used()
    ensures p in Live(H) ==> Live(H)[p] == 4 * H[p / 4 - 2].n
  {
    if p % 4 == 0 && p / 4 - 2 in H && H[p / 4 - 2].Used() {
      var b := p / 4 - 2;
      assert 4 * (b + 2) == p && 4 * (b + 2) in Live(H);
    }
  }

  lemma LiveOf(H: Blocks, b: int)
    ensures var p := 4 * (b + 2);
      p % 4 == 0 && (p in Live(H) <==> b in H && H[b].Used()) && (p in Live(H) ==> Live(H)[p] == 4 * H[b].n)
  {
    LiveAt(H, 4 * (b + 2));
  }

  lemma OtherKept(m: seq<Word>, H: Blocks, m': seq<Word>, H': Blocks, X: set<int>, b: int, q: int)
    requires SameAllocs(m, H, m', H', X) && X <= {b} && q != 4 * (b + 2)
    ensures q in Live(H) <==> q in Live(H')
    ensures q in Live(H) ==> Live(H')[q] == Live(H)[q] && SameBytes(m, m', q, Live(H)[q])
  {
    LiveAt(H, q);
    LiveAt(H', q);
    var u := q / 4 - 2;
    if q in Live(H) { assert u != b && SamePayload(m, H, m', u); }
    if q in Live(H') { assert u != b; }
  }

  lemma OthersFromSame(m: seq<Word>, H: Blocks, m': seq<Word>, H': Blocks, X: set<int>, b: int)
    requires SameAllocs(m, H, m', H', X) && X <= {b}
    ensures OthersKept(m, H, m', H', 4 * (b + 2))
  {
    var p := 4 * (b + 2);
    forall q | q != p ensures q in Live(H) <==> q in Live(H')
      ensures q in Live(H) ==> Live(H')[q] == Live(H)[q] && SameBytes(m, m', q, Live(H)[q]) {
      OtherKept(m, H, m', H', X, b, q);
    }
  }

  // ------------------------------------------------------------------ frames

  ghost predicate ChangesOnly(m: seq<Word>, m': seq<Word>, S: set<int>) {
    |m| == |m'| && forall i :: i !in S ==> At(m', i) == At(m, i)
  }

  /** The lists read only the two link words of their blocks. */
  lemma ListsFrame(m: seq<Word>, m': seq<Word>, heads: seq<int>, F: Members, nil: int)
    requires Lists(m, heads, F, nil) && |m| == |m'|
    requires forall b :: b in F ==> At(m', b + 2) == At(m, b + 2) && At(m', b + 3) == At(m, b + 3)
    ensures Lists(m', heads, F, nil)
  {
    forall b | b in F ensures Linked(m', heads, F, nil, b) { assert Linked(m, heads, F, nil, b); }
    forall c | 0 <= c < CLASSES ensures HeadOk(m', heads, F, nil, c) { assert HeadOk(m, heads, F, nil, c); }
  }
}
