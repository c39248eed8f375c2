/** The allocator of system/tlsf.c over a word-addressed memory. The control structure sits at word
    `ctl`; its block_null overlays memory words ctl .. ctl+3, its bitmaps and list heads are fields.
    A null pointer is 0. */
module Tlsf {
  import opened Bits
  import opened TlsfMapping
  import opened TlsfAlign
  import opened TlsfHeap
  import opened TlsfBlocks
  import opened TlsfLists
  import opened TlsfFrames
  import opened TlsfSteps
  import opened TlsfGrow
  import opened TlsfPool
  import opened TlsfOversize

  class Allocator {
    const mem: array<Word>
    const ctl: Word
    const slBitmap: array<Word>
    const blocks: array<Word>          // blocks[fl][sl], row by row
    var flBitmap: Word
    ghost var H: Blocks                // the blocks the headers in memory describe
    ghost var F: Members               // those on a free list
    ghost var pools: set<Pool>

    ghost predicate Separate() {
      && mem != slBitmap && mem != blocks && slBitmap != blocks
      && mem.Length <= 0x4000_0000 && 0 < ctl && ctl + CONTROL_WORDS <= mem.Length
    }

    /** The invariant while the blocks of `D` are free but on no list. */
    ghost predicate Inv(D: set<int>)
      reads this, mem, slBitmap, blocks
    {
      && Separate()
      && HeapOk(mem[..], blocks[..], H, F, D, pools, ctl)
      && Bitmaps(flBitmap, slBitmap[..], blocks[..], ctl)
    }

    ghost predicate Valid()
      reads this, mem, slBitmap, blocks
    {
      Inv({}) && Coalesced(H, F)
    }

    // ---------------------------------------------------------------- header fields

    function BlockSize(b: nat): (size: Word)
      requires b + 1 < mem.Length
      reads mem
    {
      mem[b + 1] / 4 * 4
    }

    predicate IsFree(b: nat)
      requires b + 1 < mem.Length
      reads mem
    {
      mem[b + 1] % 2 == 1
    }

    predicate IsPrevFree(b: nat)
      requires b + 1 < mem.Length
      reads mem
    {
      mem[b + 1] / 2 % 2 == 1
    }

    /** Payload address plus size minus the header overhead. */
    function BlockNext(b: nat): (nx: nat)
      requires b + 1 < mem.Length
      reads mem
    {
      b + 2 + BlockSize(b) / 4 - 1
    }

    predicate CanSplitAt(b: nat, size: nat)
      requires b + 1 < mem.Length
      reads mem
    {
      BlockSize(b) >= 16 + size
    }

    // ---------------------------------------------------------------- free lists

    /** The head of the first non-empty list at or after (fl0, sl0), or null when there is none. */
    method SearchSuitableBlock(fl0: nat, sl0: nat) returns (b: Word, fl: nat, sl: nat)
      requires Bitmaps(flBitmap, slBitmap[..], blocks[..], ctl)
      requires forall c :: 0 <= c < CLASSES ==> blocks[c] > 0
      requires fl0 < FL_INDEX_COUNT && sl0 < SL_INDEX_COUNT
      ensures b == 0 ==> Least(blocks[..], ctl, 32 * fl0 + sl0, CLASSES)
      ensures b != 0 ==> fl < FL_INDEX_COUNT && sl < SL_INDEX_COUNT && b == blocks[32 * fl + sl] && b != ctl
      ensures b != 0 ==> Least(blocks[..], ctl, 32 * fl0 + sl0, 32 * fl + sl)
    {
      fl, sl := fl0, sl0;
      Pow2Consts();
      Pow2Mono(sl, 32); Pow2Mono(fl + 1, 32);
      var mask := WORD_RANGE - Pow2(sl);
      var slMap := And(slBitmap[fl], mask);
      LeastInRowFrom(flBitmap, slBitmap[..], blocks[..], ctl, fl, sl, mask);
      if slMap == 0 {
        mask := WORD_RANGE - Pow2(fl + 1);
        var flMap := And(flBitmap, mask);
        LeastRow(flBitmap, slBitmap[..], blocks[..], ctl, fl, mask);
        if flMap == 0 {
          b := 0;
          return;
        }
        fl := Ffs(flMap);
        slMap := slBitmap[fl];
        WholeRow(flBitmap, slBitmap[..], blocks[..], ctl, fl);
      }
      sl := Ffs(slMap);
      b := blocks[32 * fl + sl];
    }

    /** Marks list (fl, sl), just found empty, in the bitmaps. */
    method ClearMark(fl: nat, sl: nat, ghost heads: seq<Word>)
      requires slBitmap != blocks && fl < FL_INDEX_COUNT && sl < SL_INDEX_COUNT
      requires Bitmaps(flBitmap, slBitmap[..], heads, ctl)
      modifies this`flBitmap, slBitmap
      ensures Bitmaps(flBitmap, slBitmap[..], heads[32 * fl + sl := ctl], ctl)
    {
      ghost var sls := slBitmap[..];
      Pow2Consts();
      Pow2Mono(sl, 32); Pow2Mono(fl, 32);
      AndBound(slBitmap[fl], Not(Pow2(sl), 32));
      AndBound(flBitmap, Not(Pow2(fl), 32));
      slBitmap[fl] := And(slBitmap[fl], Not(Pow2(sl), 32));
      if slBitmap[fl] == 0 {
        flBitmap := And(flBitmap, Not(Pow2(fl), 32));
      }
      BitmapsClear(old(flBitmap), sls, heads, ctl, fl, sl, slBitmap[fl], flBitmap);
      assert slBitmap[..] == sls[fl := slBitmap[fl]];
    }

    /** Marks list (fl, sl), which has just received a block, in the bitmaps. */
    method SetMark(fl: nat, sl: nat, ghost heads: seq<Word>, ghost b: Word)
      requires slBitmap != blocks && fl < FL_INDEX_COUNT && sl < SL_INDEX_COUNT && b != ctl
      requires Bitmaps(flBitmap, slBitmap[..], heads, ctl)
      modifies this`flBitmap, slBitmap
      ensures Bitmaps(flBitmap, slBitmap[..], heads[32 * fl + sl := b], ctl)
    {
      ghost var sls := slBitmap[..];
      Pow2Consts();
      Pow2Mono(sl, 32); Pow2Mono(fl, 32);
      OrBound(flBitmap, Pow2(fl), 32);
      OrBound(slBitmap[fl], Pow2(sl), 32);
      flBitmap := Or(flBitmap, Pow2(fl));
      slBitmap[fl] := Or(slBitmap[fl], Pow2(sl));
      BitmapsSet(old(flBitmap), sls, heads, ctl, fl, sl, b, slBitmap[fl]);
      assert slBitmap[..] == sls[fl := slBitmap[fl]];
    }

    /** Unlinks `b`, which heads or follows in list (fl, sl). */
    method RemoveFreeBlock(b: Word, fl: nat, sl: nat)
      requires Separate() && Bitmaps(flBitmap, slBitmap[..], blocks[..], ctl) && b != ctl
      requires b + 3 < mem.Length && mem[b + 2] + 3 < mem.Length && mem[b + 3] + 2 < mem.Length
      requires fl < FL_INDEX_COUNT && sl < SL_INDEX_COUNT
      modifies this`flBitmap, mem, slBitmap, blocks
      ensures Bitmaps(flBitmap, slBitmap[..], blocks[..], ctl)
      ensures blocks[..] == UnlinkedHeads(old(mem[..]), old(blocks[..]), b, 32 * fl + sl)
      ensures var nx, pv := old(mem[b + 2]), old(mem[b + 3]);
              mem[..] == old(mem[..])[nx + 3 := pv][pv + 2 := nx]
    {
      var prev, next := mem[b + 3], mem[b + 2];
      ghost var heads: seq<Word> := blocks[..];
      mem[next + 3] := prev;
      mem[prev + 2] := next;
      if blocks[32 * fl + sl] == b {
        blocks[32 * fl + sl] := next;
        if next == ctl {
          ClearMark(fl, sl, heads);
        } else {
          BitmapsMove(flBitmap, slBitmap[..], heads, ctl, 32 * fl + sl, next);
        }
        assert blocks[..] == heads[32 * fl + sl := next];
      }
    }

    /** Pushes `b` in front of list (fl, sl). */
    method InsertFreeBlock(b: Word, fl: nat, sl: nat)
      requires Separate() && Bitmaps(flBitmap, slBitmap[..], blocks[..], ctl) && b != ctl
      requires fl < FL_INDEX_COUNT && sl < SL_INDEX_COUNT
      requires b + 3 < mem.Length && blocks[32 * fl + sl] + 3 < mem.Length
      modifies this`flBitmap, mem, slBitmap, blocks
      ensures Bitmaps(flBitmap, slBitmap[..], blocks[..], ctl)
      ensures blocks[..] == old(blocks[..])[32 * fl + sl := b]
      ensures var head := old(blocks[32 * fl + sl]);
              mem[..] == old(mem[..])[b + 2 := head][b + 3 := ctl][head + 3 := b]
    {
      ghost var heads: seq<Word> := blocks[..];
      var current: Word := blocks[32 * fl + sl];
      mem[b + 2] := current;
      mem[b + 3] := ctl;
      mem[current + 3] := b;
      blocks[32 * fl + sl] := b;
      SetMark(fl, sl, heads, b);
      assert blocks[..] == heads[32 * fl + sl := b];
    }

    method Unlink(b: Word, fl: nat, sl: nat, ghost D: set<int>)
      requires Inv(D) && b in F && 32 * fl + sl == F[b].cls && sl < SL_INDEX_COUNT
      modifies this`flBitmap, this`F, mem, slBitmap, blocks
      ensures F == old(F) - {b}
      ensures Inv(D + {b}) && SameAllocs(old(mem[..]), H, mem[..], H, {})
    {
      UnlinkReady(mem[..], blocks[..], H, F, D, pools, ctl, b);
      RemoveFreeBlock(b, fl, sl);
      UnlinkStep(old(mem[..]), old(blocks[..]), H, F, D, pools, ctl, mem[..], blocks[..], b);
      F := F - {b};
    }

    method BlockRemove(b: Word, ghost D: set<int>)
      requires Inv(D) && b in F
      modifies this`flBitmap, this`F, mem, slBitmap, blocks
      ensures F == old(F) - {b}
      ensures Inv(D + {b}) && SameAllocs(old(mem[..]), H, mem[..], H, {})
    {
      UnlinkReady(mem[..], blocks[..], H, F, D, pools, ctl, b);
      ReadHeader(mem[..], H, ctl, b);
      var fl, sl := MappingInsert(BlockSize(b));
      Unlink(b, fl, sl, D);
    }

    method BlockInsert(b: Word, ghost D: set<int>)
      requires Inv(D) && b in D
      modifies this`flBitmap, this`F, mem, slBitmap, blocks
      ensures F.Keys == old(F).Keys + {b}
      ensures Inv(D - {b}) && SameAllocs(old(mem[..]), H, mem[..], H, {})
    {
      PushReady(mem[..], blocks[..], H, F, D, pools, ctl, b);
      ReadHeader(mem[..], H, ctl, b);
      var fl, sl := MappingInsert(BlockSize(b));
      InsertFreeBlock(b, fl, sl);
      F := PushStep(old(mem[..]), old(blocks[..]), H, F, D, pools, ctl, mem[..], blocks[..], b, 32 * fl + sl);
    }

    // ---------------------------------------------------------------- headers

    method BlockSetSize(b: Word, size: Word)
      requires b + 1 < mem.Length && size + mem[b + 1] % 4 < WORD_RANGE
      modifies mem
      ensures mem[..] == old(mem[..])[b + 1 := size + old(mem[b + 1]) % 4]
    {
      mem[b + 1] := size + mem[b + 1] % 4;
    }

    method BlockLinkNext(b: Word) returns (next: Word)
      requires b + 1 < mem.Length < WORD_RANGE && BlockNext(b) < mem.Length
      modifies mem
      ensures next == old(BlockNext(b)) && mem[..] == old(mem[..])[next := b]
    {
      next := BlockNext(b);
      mem[next] := b;
    }

    method BlockMarkAsFree(b: Word)
      requires FlagRoom(mem[..], b)
      modifies mem
      ensures mem[..] == FlagMem(old(mem[..]), b, true)
    {
      var next := BlockLinkNext(b);
      mem[next + 1] := WithPrevFree(mem[next + 1]);
      mem[b + 1] := WithFree(mem[b + 1]);
    }

    method BlockMarkAsUsed(b: Word)
      requires FlagRoom(mem[..], b)
      modifies mem
      ensures mem[..] == FlagMem(old(mem[..]), b, false)
    {
      var next := BlockNext(b);
      mem[next + 1] := NoPrevFree(mem[next + 1]);
      mem[b + 1] := NoFree(mem[b + 1]);
    }

    /** Cuts `b` after `size` bytes. The remainder is free; its "previous block" flag is left as the
        payload happened to have it, for the caller to set. */
    method BlockSplit(b: Word, size: Word) returns (remaining: Word)
      requires b + 1 < mem.Length <= 0x4000_0000 && BlockNext(b) + 1 < mem.Length
      requires (size == 0 || 12 <= size < BLOCK_SIZE_MAX) && size % 4 == 0
      requires CanSplitAt(b, size) && BlockSize(b) < BLOCK_SIZE_MAX
      modifies mem
      ensures remaining == b + 1 + size / 4
      ensures var nx, rest := old(BlockNext(b)), old(BlockSize(b)) - size - 4;
              var junk := WithFree(rest + old(mem[remaining + 1]) % 4);
              mem[..] == old(mem[..])[b + 1 := size + old(mem[b + 1]) % 4][nx := remaining]
                                     [nx + 1 := WithPrevFree(old(mem[nx + 1]))][remaining + 1 := junk]
    {
      remaining := b + 2 + size / 4 - 1;
      var rest := BlockSize(b) - (size + 4);
      BlockSetSize(remaining, rest);
      BlockSetSize(b, size);
      BlockMarkAsFree(remaining);
    }

    method BlockAbsorb(prev: Word, b: Word)
      requires AbsorbRoom(mem[..], prev, b)
      modifies mem
      ensures mem[..] == AbsorbMem(old(mem[..]), prev, b)
    {
      mem[prev + 1] := mem[prev + 1] + (BlockSize(b) + 4);
      var next := BlockLinkNext(prev);
    }

    // ---------------------------------------------------------------- splitting

    /** Splits `b`, which is free, and links and flags the remainder as preceded by a free block. */
    method SplitLinked(b: Word, size: Word) returns (remaining: Word)
      requires size % 4 == 0 && SplitRoom(mem[..], b, size / 4)
      modifies mem
      ensures remaining == b + 1 + size / 4 && mem[..] == SplitMem(old(mem[..]), b, size / 4, true)
    {
      JunkFlags(BlockSize(b) - size - 4, mem[b + 1 + size / 4 + 1]);
      remaining := BlockSplit(b, size);
      var next := BlockLinkNext(b);
      mem[remaining + 1] := WithPrevFree(mem[remaining + 1]);
    }

    method SplitDetached(b: Word, size: Word) returns (remaining: Word)
      requires Inv({b}) && b in H && H[b].n > 0 && Next(H, b) in H
      requires 12 <= size && size % 4 == 0 && size + 16 <= 4 * H[b].n
      modifies this`H, mem
      ensures remaining == b + 1 + size / 4 && remaining !in old(H) && H == Split(old(H), b, size / 4)
      ensures Inv({b, remaining}) && SameAllocs(old(mem[..]), old(H), mem[..], H, {b})
    {
      SplitReady(mem[..], H, ctl, b, size);
      remaining := SplitLinked(b, size);
      SplitDetachedStep(old(mem[..]), blocks[..], H, F, pools, ctl, mem[..], b, size);
      H := Split(H, b, size / 4);
    }

    /** Returns what `b`, detached and free, has beyond `size` bytes to the free lists. */
    method BlockTrimFree(b: Word, size: Word)
      requires Inv({b}) && Coalesced(H, F) && b in H && Next(H, b) in H && Next(H, b) !in F
      requires 12 <= size < BLOCK_SIZE_MAX && size % 4 == 0
      modifies this`flBitmap, this`F, this`H, mem, slBitmap, blocks
      ensures Inv({b}) && Coalesced(H, F) && b in H && H[b].prevFree == old(H)[b].prevFree
      ensures (size <= 4 * old(H)[b].n ==> size <= 4 * H[b].n) && 0 < 4 * H[b].n < size + 16
      ensures SameAllocs(old(mem[..]), old(H), mem[..], H, {b})
    {
      ReadHeader(mem[..], H, ctl, b);
      if CanSplitAt(b, size) {
        var remaining := SplitDetached(b, size);
        ghost var m1: seq<Word> := mem[..];
        BlockInsert(remaining, {b, remaining});
        assert {b, remaining} - {remaining} == {b};
        TrimCoalesced(old(H), old(F), F, ctl, b, size / 4);
        SameAllocsTrans(old(mem[..]), old(H), m1, H, mem[..], H, {b});
      } else {
        SameAllocsRefl(mem[..], H, {b});
      }
    }

    // ---------------------------------------------------------------- merging

    /** Joins the neighbours `prev` and `b`, both free: one is on a list and leaves it, the other is detached. */
    method JoinNeighbours(prev: Word, b: Word, listed: Word, ghost other: Word)
      requires Inv({other}) && Coalesced(H, F) && listed in F && {prev, b} == {listed, other}
      requires prev in H && b in H && b == Next(H, prev) && H[prev].n > 0 && H[b].n > 0
      modifies this`flBitmap, this`F, this`H, mem, slBitmap, blocks
      ensures Inv({prev}) && Coalesced(H, F) && F == old(F) - {listed} && H == Absorb(old(H), prev, b)
      ensures SameAllocs(old(mem[..]), old(H), mem[..], H, {})
    {
      BlockRemove(listed, {other});
      ghost var m1: seq<Word> := mem[..];
      assert {other} + {listed} == {prev, b};
      AbsorbReady(m1, H, ctl, prev, b);
      BlockAbsorb(prev, b);
      JoinStep(old(mem[..]), m1, blocks[..], H, F, pools, ctl, mem[..], prev, b);
      H := Absorb(H, prev, b);
    }

    /** Merges `b`, detached and free, into a free predecessor. */
    method BlockMergePrev(b: Word) returns (r: Word)
      requires Inv({b}) && Coalesced(H, F) && b in H && Next(H, b) in H
      modifies this`flBitmap, this`F, this`H, mem, slBitmap, blocks
      ensures r in H && Inv({r}) && Coalesced(H, F) && !H[r].prevFree
      ensures Next(H, r) == old(Next(H, b)) && Next(H, r) in H
      ensures SameAllocs(old(mem[..]), old(H), mem[..], H, {})
    {
      r := b;
      ReadHeader(mem[..], H, ctl, b);
      if IsPrevFree(b) {
        PredecessorOnList(mem[..], blocks[..], H, F, pools, ctl, b);
        r := mem[b];
        JoinNeighbours(r, b, r, b);
      }
    }

    /** Merges a free successor into `b`, which is detached and free. */
    method BlockMergeNext(b: Word)
      requires Inv({b}) && Coalesced(H, F) && b in H && Next(H, b) in H
      modifies this`flBitmap, this`F, this`H, mem, slBitmap, blocks
      ensures b in H && Inv({b}) && Coalesced(H, F) && H[b].prevFree == old(H)[b].prevFree
      ensures Next(H, b) in H && Next(H, b) !in F
      ensures SameAllocs(old(mem[..]), old(H), mem[..], H, {})
    {
      ReadHeader(mem[..], H, ctl, b);
      var next := BlockNext(b);
      ReadHeader(mem[..], H, ctl, next);
      if IsFree(next) {
        SuccessorOfMember(mem[..], blocks[..], H, F, {b}, pools, ctl, next);
        JoinNeighbours(b, next, next, b);
      }
    }

    /** Splits `b`, which is used, and flags the remainder as preceded by a used block. */
    method SplitUsed(b: Word, size: Word) returns (remaining: Word)
      requires size % 4 == 0 && SplitRoom(mem[..], b, size / 4)
      modifies mem
      ensures remaining == b + 1 + size / 4 && mem[..] == SplitMem(old(mem[..]), b, size / 4, false)
    {
      JunkFlags(BlockSize(b) - size - 4, mem[b + 1 + size / 4 + 1]);
      remaining := BlockSplit(b, size);
      mem[remaining + 1] := NoPrevFree(mem[remaining + 1]);
    }

    /** Merges the detached block `b` with a free successor and files it. */
    method MergeAndInsert(b: Word)
      requires Inv({b}) && Coalesced(H, F) && b in H && Next(H, b) in H && !H[b].prevFree
      modifies this`flBitmap, this`F, this`H, mem, slBitmap, blocks
      ensures Valid() && SameAllocs(old(mem[..]), old(H), mem[..], H, {})
    {
      BlockMergeNext(b);
      ghost var m1: seq<Word>, F1 := mem[..], F;
      BlockInsert(b, {b});
      InsertKeepsCoalesced(H, F1, F, pools, ctl, b);
      assert {b} - {b} == {};
      SameAllocsTrans(old(mem[..]), old(H), m1, H, mem[..], H, {});
    }

    /** Splits the used block `b` after `size` bytes; the remainder is not on any list yet. */
    method SplitOff(b: Word, size: Word) returns (remaining: Word)
      requires Valid() && b in H && H[b].Used() && Next(H, b) in H
      requires 12 <= size && size % 4 == 0 && size + 16 <= 4 * H[b].n
      modifies this`H, mem
      ensures Inv({remaining}) && Coalesced(H, F) && remaining in H && Next(H, remaining) in H
      ensures !H[remaining].prevFree && b in H && b != remaining && H[b].Used() && 4 * H[b].n == size
      ensures SameAllocs(old(mem[..]), old(H), mem[..], H, {b}) && SamePayload(mem[..], H, old(mem[..]), b)
    {
      ReadHeader(mem[..], H, ctl, b);
      SplitReady(mem[..], H, ctl, b, size);
      remaining := SplitUsed(b, size);
      SplitUsedStep(old(mem[..]), blocks[..], H, F, pools, ctl, mem[..], b, size);
      H := Split(H, b, size / 4);
    }

    /** Returns what the used block `b` has beyond `size` bytes to the free lists. */
    method BlockTrimUsed(b: Word, size: Word)
      requires Valid() && b in H && H[b].Used() && Next(H, b) in H
      requires 12 <= size <= 4 * H[b].n && size % 4 == 0
      modifies this`flBitmap, this`F, this`H, mem, slBitmap, blocks
      ensures Valid() && b in H && H[b].Used() && size <= 4 * H[b].n < size + 16
      ensures SameAllocs(old(mem[..]), old(H), mem[..], H, {b}) && SamePayload(mem[..], H, old(mem[..]), b)
    {
      ReadHeader(mem[..], H, ctl, b);
      if CanSplitAt(b, size) {
        var remaining := SplitOff(b, size);
        ghost var m1: seq<Word>, H1 := mem[..], H;
        MergeAndInsert(remaining);
        SameAllocsTrans(old(mem[..]), old(H), m1, H1, mem[..], H, {b});
        SamePayloadTrans(old(mem[..]), m1, H1, mem[..], H, b);
      }
    }

    // ---------------------------------------------------------------- allocation and release

    /** Finds a block of at least `size` bytes, good fit, and takes it off its list. */
    method BlockLocateFree(size: Word) returns (b: Word)
      requires Valid() && size < BLOCK_SIZE_MAX && size % 4 == 0
      modifies this`flBitmap, this`F, mem, slBitmap, blocks
      ensures b == 0 <==> size == 0 || forall q :: q in old(F) ==> old(F)[q].cls < Class(RoundUp(size))
      ensures b == 0 ==> Valid() && F == old(F) && mem[..] == old(mem[..])
      ensures b != 0 ==> b in old(F) && F == old(F) - {b} && Inv({b}) && Coalesced(H, F)
      ensures b != 0 ==> LeastFit(old(F), b, size)
      ensures b != 0 ==> b in H && size <= 4 * H[b].n && !H[b].prevFree && Next(H, b) in H && Next(H, b) !in F
      ensures SameAllocs(old(mem[..]), old(H), mem[..], H, {})
    {
      b := 0;
      if size != 0 {
        var fl, sl := MappingSearch(size);
        ghost var c := 32 * fl + sl;
        if fl < FL_INDEX_COUNT {
          HeadsPositive(mem[..], blocks[..], H, F, {}, pools, ctl);
          b, fl, sl := SearchSuitableBlock(fl, sl);
        }
        if b != 0 {
          FoundFits(mem[..], blocks[..], H, F, pools, ctl, size, 32 * fl + sl);
          Unlink(b, fl, sl, {});
        } else {
          NothingFits(mem[..], blocks[..], F, ctl, c);
        }
      }
    }

    /** Trims the located block `b` to `size` bytes and hands it out. */
    method BlockPrepareUsed(b: Word, size: Word) returns (p: Word)
      requires b != 0 && Inv({b}) && Coalesced(H, F) && b in H && Next(H, b) in H && Next(H, b) !in F
      requires 12 <= size < BLOCK_SIZE_MAX && size % 4 == 0
      modifies this`flBitmap, this`F, this`H, mem, slBitmap, blocks
      ensures Valid() && b in H && H[b].Used() && p == 4 * (b + 2)
      ensures (size <= 4 * old(H)[b].n ==> size <= 4 * H[b].n) && 4 * H[b].n < size + 16
      ensures SameAllocs(old(mem[..]), old(H), mem[..], H, {b})
    {
      BlockTrimFree(b, size);
      ghost var m1: seq<Word>, H1 := mem[..], H;
      FlagWords(m1, H, ctl, b, false);
      BlockMarkAsUsed(b);
      FlagStep(m1, blocks[..], H, F, {b}, pools, ctl, mem[..], b, false);
      FlaggedCoalesced(H, F, b, false);
      H := Flagged(H, b, false);
      assert {b} - {b} == {};
      SameAllocsTrans(old(mem[..]), old(H), m1, H1, mem[..], H, {b});
      ReadHeader(mem[..], H, ctl, b);
      p := 4 * (b + 2);
    }

    /** Allocates a block for a request adjusted to `adjust`; null when there is none. */
    method Allocate(adjust: Word) returns (b: Word, p: Word)
      requires Valid() && adjust < BLOCK_SIZE_MAX && adjust % 4 == 0 && (adjust != 0 ==> adjust >= BLOCK_SIZE_MIN)
      modifies this`flBitmap, this`F, this`H, mem, slBitmap, blocks
      ensures Valid()
      ensures b == 0 <==> adjust == 0 || NoFit(old(F), adjust)
      ensures b == 0 ==> H == old(H) && mem[..] == old(mem[..]) && p == 0
      ensures b != 0 ==> b in H && H[b].Used() && !(b in old(H) && old(H)[b].Used()) && p == 4 * (b + 2)
      ensures b != 0 ==> adjust <= 4 * H[b].n < adjust + 16 && LeastFit(old(F), b, adjust)
      ensures SameAllocs(old(mem[..]), old(H), mem[..], H, {b})
    {
      b := BlockLocateFree(adjust);
      p := 0;
      if b != 0 {
        ghost var m1: seq<Word> := mem[..];
        p := BlockPrepareUsed(b, adjust);
        SameAllocsTrans(old(mem[..]), old(H), m1, old(H), mem[..], H, {b});
      }
    }

    method Malloc(size: Word) returns (p: Word)
      requires Valid()
      modifies this`flBitmap, this`F, this`H, mem, slBitmap, blocks
      ensures Valid()
      ensures p == 0 <==> Adjusted(size, 2) == 0 || NoFit(old(F), Adjusted(size, 2))
      ensures p == 0 ==> H == old(H) && mem[..] == old(mem[..])
      ensures p != 0 ==> p !in Live(old(H)) && p in Live(H) && p % 4 == 0
      ensures p != 0 ==> Adjusted(size, 2) <= Live(H)[p] < Adjusted(size, 2) + 16
      ensures p != 0 ==> LeastFit(old(F), p / 4 - 2, Adjusted(size, 2))
      ensures p != 0 && size <= WORD_RANGE - 4 ==> size <= Live(H)[p]
      ensures OthersKept(old(mem[..]), old(H), mem[..], H, p)
    {
      AdjustWords(size);
      assert Pow2(2) == 4;
      var adjust := AdjustRequestSize(size, 4, 2);
      var b;
      b, p := Allocate(adjust);
      if b != 0 {
        OthersFromSame(old(mem[..]), old(H), mem[..], H, {b}, b);
        LiveOf(old(H), b);
        LiveOf(H, b);
      } else {
        OthersFromSame(old(mem[..]), H, mem[..], H, {}, -2);
      }
    }

    /** Frees the used block `b`, merging it with free neighbours. */
    method Release(b: Word)
      requires Valid() && b in H && H[b].Used()
      modifies this`flBitmap, this`F, this`H, mem, slBitmap, blocks
      ensures Valid() && !(b in H && H[b].Used()) && SameAllocs(old(mem[..]), old(H), mem[..], H, {b})
    {
      FlagWords(mem[..], H, ctl, b, true);
      BlockMarkAsFree(b);
      FlagStep(old(mem[..]), blocks[..], H, F, {}, pools, ctl, mem[..], b, true);
      FlaggedCoalesced(H, F, b, true);
      H := Flagged(H, b, true);
      assert {} + {b} == {b};
      ghost var m1: seq<Word>, H1 := mem[..], H;
      var r := BlockMergePrev(b);
      ghost var m2: seq<Word>, H2 := mem[..], H;
      MergeAndInsert(r);
      FreeTrans(old(mem[..]), old(H), m1, H1, m2, H2, mem[..], H, b);
    }

    method Free(ptr: Word)
      requires Valid() && (ptr == 0 || ptr in Live(H))
      modifies this`flBitmap, this`F, this`H, mem, slBitmap, blocks
      ensures Valid() && ptr !in Live(H)
      ensures OthersKept(old(mem[..]), old(H), mem[..], H, ptr)
      ensures ptr == 0 ==> H == old(H) && mem[..] == old(mem[..])
    {
      LiveBlock(mem[..], H, ctl, ptr);
      if ptr != 0 {
        var b: Word := ptr / 4 - 2;
        Release(b);
        OthersFromSame(old(mem[..]), old(H), mem[..], H, {b}, b);
        LiveAt(H, ptr);
      } else {
        OthersFromSame(mem[..], H, mem[..], H, {}, -2);
      }
    }

    /** Splits `b` after `size - 4` bytes and files the front part. */
    method SplitFront(b: Word, size: Word) returns (r: Word)
      requires Inv({b}) && Coalesced(H, F) && b in H && H[b].n > 0
      requires !H[b].prevFree && Next(H, b) in H && Next(H, b) !in F
      requires 16 <= size && size % 4 == 0 && size + 16 <= 4 * H[b].n
      modifies this`flBitmap, this`F, this`H, mem, slBitmap, blocks
      ensures r == b + size / 4 && r !in old(H) && H == Split(old(H), b, size / 4 - 1)
      ensures Inv({r}) && Coalesced(H, F) && Next(H, r) == old(Next(H, b)) && Next(H, r) !in F
      ensures SameAllocs(old(mem[..]), old(H), mem[..], H, {b})
    {
      SplitReady(mem[..], H, ctl, b, size - 4);
      r := SplitDetached(b, size - 4);
      ghost var m1: seq<Word> := mem[..];
      BlockInsert(b, {b, r});
      assert {b, r} - {b} == {r};
      LeadCoalesced(old(H), old(F), F, ctl, b, size / 4 - 1);
      SameAllocsTrans(old(mem[..]), old(H), m1, H, mem[..], H, {b});
    }

    /** Cuts `size` bytes of payload and header off the front of `b`, detached, and files them as a free
        block of their own; the second part is returned in place of `b`. */
    method BlockTrimFreeLeading(b: Word, size: Word) returns (r: Word)
      requires Inv({b}) && Coalesced(H, F) && b in H && H[b].n > 0
      requires !H[b].prevFree && Next(H, b) in H && Next(H, b) !in F
      requires 16 <= size && size % 4 == 0 && size + 16 < WORD_RANGE
      modifies this`flBitmap, this`F, this`H, mem, slBitmap, blocks
      ensures r in H && Inv({r}) && Coalesced(H, F) && Next(H, r) in H && Next(H, r) !in F
      ensures size + 16 <= 4 * old(H)[b].n ==> r == b + size / 4 && 4 * H[r].n == 4 * old(H)[b].n - size && r !in old(H)
      ensures size + 16 > 4 * old(H)[b].n ==> r == b && H == old(H)
      ensures !(b in H && H[b].Used())
      ensures SameAllocs(old(mem[..]), old(H), mem[..], H, {b})
    {
      r := b;
      ReadHeader(mem[..], H, ctl, b);
      if CanSplitAt(b, size) {
        r := SplitFront(b, size);
      } else {
        SameAllocsRefl(mem[..], H, {b});
      }
    }

    /** The size searched for on behalf of an aligned request. */
    method PaddedSize(adjust: Word, align: Word, ghost k: nat) returns (padded: Word)
      requires k < 32 && align == Pow2(k) && adjust < BLOCK_SIZE_MAX
      requires adjust % 4 == 0 && (adjust != 0 ==> adjust >= BLOCK_SIZE_MIN)
      ensures padded == Padded(adjust, k)
      ensures padded < BLOCK_SIZE_MAX && padded % 4 == 0 && (adjust == 0 ==> padded == 0)
      ensures k <= 2 ==> padded == adjust
      ensures 3 <= k <= 30 && padded != 0 ==> padded >= adjust + align + 16
    {
      Pow2Range(k);
      var sizeWithGap := AdjustRequestSize(Wrap(adjust + align + 16), align, k);
      if adjust != 0 && k >= 3 { PaddingCoversGap(adjust, align, k); }
      padded := if adjust != 0 && align > 4 then sizeWithGap else adjust;
    }

    /** Moves into the located block `b` far enough for its payload to be aligned. */
    method SkipGap(b: Word, align: Word, ghost adjust: Word, ghost k: nat) returns (r: Word)
      requires Inv({b}) && Coalesced(H, F) && b in H && !H[b].prevFree && Next(H, b) in H && Next(H, b) !in F
      requires k < 32 && align == Pow2(k)
      requires 3 <= k <= 30 ==> adjust + align + 16 <= 4 * H[b].n && adjust >= 12
      modifies this`flBitmap, this`F, this`H, mem, slBitmap, blocks
      ensures r in H && Inv({r}) && Coalesced(H, F) && Next(H, r) in H && Next(H, r) !in F && r != 0
      ensures r != b ==> r !in old(H)
      ensures k <= 2 ==> r == b && H == old(H)
      ensures k <= 30 ==> Aligned(4 * (r + 2), k)
      ensures 3 <= k <= 30 ==> adjust <= 4 * H[r].n
      ensures !(b in H && H[b].Used()) && SameAllocs(old(mem[..]), old(H), mem[..], H, {b})
    {
      ReadHeader(mem[..], H, ctl, b);
      RoomForGap(mem[..], H, ctl, b, align, adjust);
      var gap := AlignmentGap(4 * (b + 2), align, k);
      r := b;
      if gap != 0 {
        r := BlockTrimFreeLeading(b, gap);
      } else {
        SameAllocsRefl(mem[..], H, {b});
      }
    }

    /** Allocates `size` bytes at a multiple of `align`, a power of two. The promise about alignment and
        size stops at align = 2^31, where the padded size wraps around. */
    method Memalign(align: Word, size: Word, ghost k: nat) returns (p: Word)
      requires Valid() && k < 32 && align == Pow2(k)
      modifies this`flBitmap, this`F, this`H, mem, slBitmap, blocks
      ensures Valid()
      ensures p == 0 <==> Padded(Adjusted(size, 2), k) == 0 || NoFit(old(F), Padded(Adjusted(size, 2), k))
      ensures p == 0 ==> H == old(H) && mem[..] == old(mem[..])
      ensures p != 0 ==> p !in Live(old(H)) && p in Live(H) && p % 4 == 0 && Live(H)[p] < Adjusted(size, 2) + 16
      ensures p != 0 && k <= 30 ==> Aligned(p, k) && Adjusted(size, 2) <= Live(H)[p]
      ensures p != 0 && k <= 30 && size <= WORD_RANGE - 4 ==> size <= Live(H)[p]
      ensures OthersKept(old(mem[..]), old(H), mem[..], H, p)
    {
      AdjustWords(size);
      assert Pow2(2) == 4;
      var adjust := AdjustRequestSize(size, 4, 2);
      var alignedSize := PaddedSize(adjust, align, k);
      var b := BlockLocateFree(alignedSize);
      p := 0;
      if b != 0 {
        ghost var m0: seq<Word> := mem[..];
        var r := SkipGap(b, align, adjust, k);
        ghost var m1: seq<Word>, H1 := mem[..], H;
        p := BlockPrepareUsed(r, adjust);
        HandedOutVia(old(mem[..]), m0, old(H), m1, H1, mem[..], H, b, r);
      } else {
        OthersFromSame(old(mem[..]), H, mem[..], H, {}, -2);
      }
    }

    // ---------------------------------------------------------------- reallocation

    /** block_merge_next and block_mark_as_used on the used block `b`, whose successor is free. */
    method GrowIntoNext(b: Word)
      requires Valid() && b in H && H[b].Used() && Next(H, b) in H && H[Next(H, b)].free
      modifies this`flBitmap, this`F, this`H, mem, slBitmap, blocks
      ensures Valid() && b in H && H[b].Used() && Next(H, b) in H
      ensures 4 * H[b].n == 4 * old(H)[b].n + 4 * old(H)[old(Next(H, b))].n + 4
      ensures SameAllocs(old(mem[..]), old(H), mem[..], H, {b}) && SamePayload(old(mem[..]), old(H), mem[..], b)
    {
      ReadHeader(mem[..], H, ctl, b);
      var next := BlockNext(b);
      SuccessorOfMember(mem[..], blocks[..], H, F, {}, pools, ctl, next);
      BlockRemove(next, {});
      ghost var m1: seq<Word> := mem[..];
      assert {} + {next} == {next};
      GrowStep(m1, blocks[..], H, F, pools, ctl, b);
      BlockAbsorb(b, next);
      BlockMarkAsUsed(b);
      SameAllocsTrans(old(mem[..]), H, m1, H, mem[..], Grown(H, b), {b});
      SamePayloadVia(old(mem[..]), H, m1, mem[..], b);
      H := Grown(H, b);
    }

    /** memcpy of whole words between disjoint ranges. */
    method MemCpy(dst: Word, src: Word, words: nat)
      requires dst + words <= mem.Length && src + words <= mem.Length && (dst + words <= src || src + words <= dst)
      modifies mem
      ensures forall i :: dst <= i < dst + words ==> mem[i] == old(mem[i - dst + src])
      ensures forall i :: 0 <= i < mem.Length && !(dst <= i < dst + words) ==> mem[i] == old(mem[i])
    {
      var k := 0;
      while k < words
        invariant 0 <= k <= words
        invariant forall i :: dst <= i < dst + k ==> mem[i] == old(mem[i - dst + src])
        invariant forall i :: 0 <= i < mem.Length && !(dst <= i < dst + k) ==> mem[i] == old(mem[i])
      {
        mem[dst + k] := mem[src + k];
        k := k + 1;
      }
    }

    /** Copies the payload of block `b` into the payload of block `c`, which is at least as large. */
    method CopyPayload(c: Word, b: Word, words: nat)
      requires Valid() && b in H && H[b].Used() && c in H && H[c].Used() && b != c && words == H[b].n <= H[c].n
      modifies mem
      ensures Valid() && SameAllocs(old(mem[..]), H, mem[..], H, {c})
      ensures CopiedWords(old(mem[..]), b + 2, mem[..], c + 2, words)
    {
      PayloadRanges(mem[..], H, ctl, b, c);
      MemCpy(c + 2, b + 2, words);
      CopyStep(old(mem[..]), blocks[..], H, F, pools, ctl, mem[..], c, b, words);
    }

    /** Copies the payload of `b` to `c` and frees `b`. */
    method MovePayload(c: Word, b: Word, words: nat)
      requires Valid() && b in H && H[b].Used() && c in H && H[c].Used() && b != c && words == H[b].n <= H[c].n
      modifies this`flBitmap, this`F, this`H, mem, slBitmap, blocks
      ensures Valid() && c in H && H[c].Used() && H[c].n == old(H)[c].n && !(b in H && H[b].Used())
      ensures CopiedWords(old(mem[..]), b + 2, mem[..], c + 2, words)
      ensures SameAllocs(old(mem[..]), old(H), mem[..], H, {b, c})
    {
      CopyPayload(c, b, words);
      ghost var m1: seq<Word> := mem[..];
      Release(b);
      Moved(old(mem[..]), m1, old(H), mem[..], H, b, c, words);
    }

    /** Allocates anew, copies and frees; null when there is no block to move to. */
    method Relocate(b: Word, size: Word) returns (c: Word)
      requires Valid() && b in H && H[b].Used() && 4 * H[b].n < Adjusted(size, 2)
      modifies this`flBitmap, this`F, this`H, mem, slBitmap, blocks
      ensures Valid()
      ensures c == 0 <==> NoFit(old(F), Adjusted(size, 2))
      ensures c == 0 ==> H == old(H) && mem[..] == old(mem[..])
      ensures c != 0 ==> c in H && H[c].Used() && Adjusted(size, 2) <= 4 * H[c].n < Adjusted(size, 2) + 16
      ensures c != 0 ==> !(c in old(H) && old(H)[c].Used()) && !(b in H && H[b].Used())
      ensures c != 0 ==> CopiedWords(old(mem[..]), b + 2, mem[..], c + 2, old(H)[b].n)
      ensures SameAllocs(old(mem[..]), old(H), mem[..], H, {b, c})
    {
      ReadHeader(mem[..], H, ctl, b);
      var cursize := BlockSize(b);
      MinIsCurrent(cursize, size);
      var adjust := AdjustRequestSize(size, 4, 2);
      var p;
      c, p := Allocate(adjust);
      if c != 0 {
        ghost var m1: seq<Word>, H1 := mem[..], H;
        var minsize := if cursize < size then cursize else size;
        MovePayload(c, b, minsize / 4);
        Relocated(old(mem[..]), old(H), m1, H1, mem[..], H, b, c);
      }
    }

    /** Grows `b` into its successor if it is too small, then trims it. */
    method ResizeInPlace(b: Word, adjust: Word)
      requires Valid() && b in H && H[b].Used() && Next(H, b) in H && 12 <= adjust && adjust % 4 == 0
      requires 4 * H[b].n < adjust ==> H[Next(H, b)].free && adjust <= 4 * H[b].n + 4 * H[Next(H, b)].n + 4
      modifies this`flBitmap, this`F, this`H, mem, slBitmap, blocks
      ensures Valid() && b in H && H[b].Used() && adjust <= 4 * H[b].n < adjust + 16
      ensures CopiedWords(old(mem[..]), b + 2, mem[..], b + 2, Min(old(H)[b].n, H[b].n))
      ensures SameAllocs(old(mem[..]), old(H), mem[..], H, {b, b})
    {
      ReadHeader(mem[..], H, ctl, b);
      SameAllocsRefl(mem[..], H, {b});
      if adjust > BlockSize(b) {
        GrowIntoNext(b);
      }
      ghost var m1: seq<Word>, H1 := mem[..], H;
      BlockTrimUsed(b, adjust);
      ResizedInPlace(old(mem[..]), old(H), m1, H1, mem[..], H, b);
    }

    /** Resizes the used block `b` to a non-zero request: in place when it shrinks or its free successor
        is large enough, otherwise by moving. Null, with nothing changed, when there is nowhere to move. */
    method Resize(b: Word, size: Word) returns (c: Word)
      requires Valid() && b in H && H[b].Used() && Adjusted(size, 2) != 0
      modifies this`flBitmap, this`F, this`H, mem, slBitmap, blocks
      ensures Valid()
      ensures c == b <==> RoomInPlace(old(H), b, Adjusted(size, 2))
      ensures c == 0 <==> !RoomInPlace(old(H), b, Adjusted(size, 2)) && NoFit(old(F), Adjusted(size, 2))
      ensures c == 0 ==> H == old(H) && mem[..] == old(mem[..])
      ensures c != 0 ==> c in H && H[c].Used() && Adjusted(size, 2) <= 4 * H[c].n < Adjusted(size, 2) + 16
      ensures c != 0 && c != b ==> !(c in old(H) && old(H)[c].Used()) && !(b in H && H[b].Used())
      ensures c != 0 ==> CopiedWords(old(mem[..]), b + 2, mem[..], c + 2, Min(old(H)[b].n, H[c].n))
      ensures SameAllocs(old(mem[..]), old(H), mem[..], H, {b, c})
    {
      ReadHeader(mem[..], H, ctl, b);
      var next := BlockNext(b);
      ReadHeader(mem[..], H, ctl, next);
      AdjustFour(size);
      var cursize, combined := BlockSize(b), BlockSize(b) + BlockSize(next) + 4;
      var adjust := AdjustRequestSize(size, 4, 2);
      if adjust > cursize && (!IsFree(next) || adjust > combined) {
        c := Relocate(b, size);
      } else {
        ResizeInPlace(b, adjust);
        c := b;
      }
    }

    /** Resizes a live allocation to a non-zero size. */
    method ReallocLive(ptr: Word, size: Word) returns (p: Word)
      requires Valid() && ptr in Live(H) && Adjusted(size, 2) != 0
      modifies this`flBitmap, this`F, this`H, mem, slBitmap, blocks
      ensures Valid() && OthersKept2(old(mem[..]), old(H), mem[..], H, ptr, p)
      ensures p == ptr <==> RoomInPlace(old(H), ptr / 4 - 2, Adjusted(size, 2))
      ensures p == 0 <==>
        !RoomInPlace(old(H), ptr / 4 - 2, Adjusted(size, 2)) && NoFit(old(F), Adjusted(size, 2))
      ensures p == 0 ==> H == old(H) && mem[..] == old(mem[..])
      ensures p != 0 ==> p in Live(H) && Adjusted(size, 2) <= Live(H)[p] < Adjusted(size, 2) + 16
      ensures p != 0 && p != ptr ==> p !in Live(old(H)) && ptr !in Live(H)
      ensures p != 0 ==> CopiedWords(old(mem[..]), ptr / 4, mem[..], p / 4, Min(Live(old(H))[ptr], Live(H)[p]) / 4)
    {
      LiveBlock(mem[..], H, ctl, ptr);
      var b: Word := ptr / 4 - 2;
      var c := Resize(b, size);
      ReadBack(mem[..], H, ctl, c);
      p := if c == 0 then 0 else 4 * (c + 2);
      ResizeResult(old(mem[..]), old(H), mem[..], H, b, c);
    }

    /** Unlinks the free block `q` from the list its size names, whatever state its neighbours are in. */
    method UnlinkLoosely(q: Word, ghost c: nat)
      requires Separate() && Bitmaps(flBitmap, slBitmap[..], blocks[..], ctl) && q != ctl
      requires q + 3 < mem.Length && mem[q + 2] + 3 < mem.Length && mem[q + 3] + 2 < mem.Length
      requires BlockSize(q) < BLOCK_SIZE_MAX && c == Class(BlockSize(q))
      modifies this`flBitmap, mem, slBitmap, blocks
      ensures Bitmaps(flBitmap, slBitmap[..], blocks[..], ctl)
      ensures blocks[..] == UnlinkedHeads(old(mem[..]), old(blocks[..]), q, c)
      ensures var nx, pv := old(mem[q + 2]), old(mem[q + 3]); mem[..] == old(mem[..])[nx + 3 := pv][pv + 2 := nx]
    {
      ClassInRange(BlockSize(q));
      var fl, sl := MappingInsert(BlockSize(q));
      RemoveFreeBlock(q, fl, sl);
    }

    /** Merges the loose remainder after block `b`, cut to nothing, with a free successor. */
    method MergeLoose(b: Word, next: Word, ghost m: seq<Word>, ghost hd: seq<Word>)
      requires Separate() && Bitmaps(flBitmap, slBitmap[..], blocks[..], ctl) && blocks[..] == hd
      requires HeapOk(m, hd, H, F, {}, pools, ctl) && b in H && H[b].Used() && next == Next(H, b) && next in F
      requires Loose(m, H, F, ctl, mem[..], hd, b) && next + 1 < |m| && mem[b + 2] == 4 * (H[b].n - 1) + 1
      requires mem[next + 1] / 4 == H[next].n
      requires At(mem[..], next + 2) == At(m, next + 2) && At(mem[..], next + 3) == At(m, next + 3)
      modifies this`flBitmap, mem, slBitmap, blocks
      ensures Bitmaps(flBitmap, slBitmap[..], blocks[..], ctl)
      ensures Loose(m, H, F, ctl, mem[..], blocks[..], b) && mem[b + 2] / 4 < 0x1000_0000
    {
      UnlinkNext(b, next, m, hd);
      AbsorbLoose(m, H, F, pools, ctl, b, mem[..], blocks[..]);
      BlockAbsorb(b + 1, next);
    }

    method UnlinkNext(b: Word, next: Word, ghost m: seq<Word>, ghost hd: seq<Word>)
      requires Separate() && Bitmaps(flBitmap, slBitmap[..], blocks[..], ctl) && blocks[..] == hd
      requires HeapOk(m, hd, H, F, {}, pools, ctl) && b in H && H[b].Used() && next == Next(H, b) && next in F
      requires Loose(m, H, F, ctl, mem[..], hd, b) && next + 1 < |m| && mem[b + 2] == 4 * (H[b].n - 1) + 1
      requires mem[next + 1] / 4 == H[next].n
      requires At(mem[..], next + 2) == At(m, next + 2) && At(mem[..], next + 3) == At(m, next + 3)
      modifies this`flBitmap, mem, slBitmap, blocks
      ensures Bitmaps(flBitmap, slBitmap[..], blocks[..], ctl)
      ensures Loose(m, H, F, ctl, mem[..], blocks[..], b) && mem[b + 2] == old(mem[b + 2])
      ensures mem[next + 1] == old(mem[next + 1])
    {
      UnlinkHarmless(m, hd, H, F, pools, ctl, next);
      UnlinkReady(m, hd, H, F, {}, pools, ctl, next);
      ReadHeader(m, H, ctl, next);
      ghost var m1: seq<Word> := mem[..];
      UnlinkLoosely(next, F[next].cls);
      UnlinkLoose(m, hd, H, F, pools, ctl, b, m1, mem[..], blocks[..]);
    }

    method InsertLoose(b: Word, ghost m: seq<Word>, ghost hd: seq<Word>)
      requires Separate() && Bitmaps(flBitmap, slBitmap[..], blocks[..], ctl)
      requires HeapOk(m, hd, H, F, {}, pools, ctl) && b in H && H[b].Used()
      requires Loose(m, H, F, ctl, mem[..], blocks[..], b) && mem[b + 2] / 4 < 0x1000_0000
      modifies this`flBitmap, mem, slBitmap, blocks
      ensures CutToNothing(m, H, mem[..], b)
    {
      ghost var m3: seq<Word>, h3: seq<Word> := mem[..], blocks[..];
      ReadHeader(m, H, ctl, b);
      assert BlockOk(H, ctl, b);
      ClassInRange(BlockSize(b + 1));
      var fl, sl := MappingInsert(BlockSize(b + 1));
      HeadHarmless(m, hd, H, F, pools, ctl, h3, 32 * fl + sl);
      InsertFreeBlock(b + 1, fl, sl);
      PushLoose(m, hd, H, F, pools, ctl, b, m3, h3, 32 * fl + sl, mem[..]);
    }

    /** block_trim_used after 0 bytes: the block is cut to nothing, what is left of it is merged and filed
        as a free block, and no block map describes the pools any more. */
    method TrimToNothing(b: Word)
      requires Valid() && b in H && H[b].Used() && H[b].n >= 4
      modifies this`flBitmap, mem, slBitmap, blocks
      ensures NoMap(mem[..], pools, ctl)
    {
      ghost var m: seq<Word>, hd: seq<Word> := mem[..], blocks[..];
      SplitLoose(m, hd, H, F, pools, ctl, b);
      var r := SplitUsed(b, 0);
      var next := BlockNext(r);
      assert next == Next(H, b);
      if IsFree(next) { MergeLoose(b, next, m, hd); }
      InsertLoose(b, m, hd);
      CutHasNoMap(m, H, mem[..], pools, ctl, b);
    }

    /** The in-place branch for a request adjusted to 0 bytes: nothing for a block of 12 bytes, ruin for a
        larger one. */
    method ReallocNothing(ptr: Word, size: Word)
      requires Valid() && ptr in Live(H) && size != 0 && Adjusted(size, 2) == 0
      modifies this`flBitmap, mem, slBitmap, blocks
      ensures Spoils(H, ptr, size) ==> NoMap(mem[..], pools, ctl)
      ensures !Spoils(H, ptr, size) ==> Valid() && mem[..] == old(mem[..]) && Live(H)[ptr] == 12
    {
      LiveBlock(mem[..], H, ctl, ptr);
      var b: Word := ptr / 4 - 2;
      ReadHeader(mem[..], H, ctl, b);
      if CanSplitAt(b, 0) { TrimToNothing(b); }
    }

    /** Resizes an allocation. A null pointer allocates, a zero size frees. A request too large for any block
        is refused only where the block would have to move: a block of at least 16 bytes is cut to nothing
        and the heap is lost, one of 12 bytes is returned as it is, too small. */
    method Realloc(ptr: Word, size: Word) returns (p: Word)
      requires Valid() && (ptr == 0 || ptr in Live(H))
      modifies this`flBitmap, this`F, this`H, mem, slBitmap, blocks
      ensures Spoils(old(H), ptr, size) ==> p == ptr && NoMap(mem[..], pools, ctl)
      ensures !Spoils(old(H), ptr, size) ==> Valid() && OthersKept2(old(mem[..]), old(H), mem[..], H, ptr, p)
      ensures p == 0 && (ptr == 0 || size != 0) ==> H == old(H) && mem[..] == old(mem[..])
      ensures p == 0 && size != 0 ==> Adjusted(size, 2) == 0 || NoFit(old(F), Adjusted(size, 2))
      ensures ptr != 0 && size == 0 ==> p == 0 && ptr !in Live(H)
      ensures p != 0 && !Spoils(old(H), ptr, size) ==>
        p in Live(H) && Adjusted(size, 2) <= Live(H)[p] < Adjusted(size, 2) + 16
      ensures p != 0 && Adjusted(size, 2) != 0 && size <= WORD_RANGE - 4 ==> size <= Live(H)[p]
      ensures p != 0 && Adjusted(size, 2) == 0 && !Spoils(old(H), ptr, size) ==>
        p == ptr && Live(H)[p] == 12 < size && H == old(H) && mem[..] == old(mem[..])
      ensures p != 0 && p != ptr ==> p !in Live(old(H)) && ptr !in Live(H)
      ensures p != 0 && ptr != 0 ==> ptr in Live(old(H))
      ensures p != 0 && ptr != 0 && !Spoils(old(H), ptr, size) ==>
        CopiedWords(old(mem[..]), ptr / 4, mem[..], p / 4, Min(Live(old(H))[ptr], Live(H)[p]) / 4)
      ensures ptr != 0 && Adjusted(size, 2) != 0 ==>
        (p == ptr <==> RoomInPlace(old(H), ptr / 4 - 2, Adjusted(size, 2)))
      ensures ptr != 0 && Adjusted(size, 2) != 0 ==>
        (p == 0 <==> !RoomInPlace(old(H), ptr / 4 - 2, Adjusted(size, 2)) && NoFit(old(F), Adjusted(size, 2)))
      ensures ptr == 0 ==> (p == 0 <==> Adjusted(size, 2) == 0 || NoFit(old(F), Adjusted(size, 2)))
    {
      p := 0;
      LiveBlock(mem[..], H, ctl, ptr);
      if ptr != 0 && size == 0 {
        Free(ptr);
        OthersWeaken(old(mem[..]), old(H), mem[..], H, ptr, p);
      } else if ptr == 0 {
        p := Malloc(size);
        NullNotLive(mem[..], H, ctl);
        OthersWeaken(old(mem[..]), old(H), mem[..], H, p, ptr);
      } else {
        p := ReallocAny(ptr, size);
      }
    }

    /** Both arguments non-zero. */
    method ReallocAny(ptr: Word, size: Word) returns (p: Word)
      requires Valid() && ptr in Live(H) && size != 0
      modifies this`flBitmap, this`F, this`H, mem, slBitmap, blocks
      ensures Spoils(old(H), ptr, size) ==> p == ptr && NoMap(mem[..], pools, ctl)
      ensures !Spoils(old(H), ptr, size) ==> Valid() && OthersKept2(old(mem[..]), old(H), mem[..], H, ptr, p)
      ensures p == 0 ==> H == old(H) && mem[..] == old(mem[..]) && NoFit(old(F), Adjusted(size, 2))
      ensures p != 0 && !Spoils(old(H), ptr, size) ==>
        p in Live(H) && Adjusted(size, 2) <= Live(H)[p] < Adjusted(size, 2) + 16
      ensures p != 0 && Adjusted(size, 2) != 0 && size <= WORD_RANGE - 4 ==> size <= Live(H)[p]
      ensures Adjusted(size, 2) == 0 && !Spoils(old(H), ptr, size) ==>
        p == ptr && Live(H)[p] == 12 < size && H == old(H) && mem[..] == old(mem[..])
      ensures p != 0 && p != ptr ==> p !in Live(old(H)) && ptr !in Live(H)
      ensures p != 0 && !Spoils(old(H), ptr, size) ==>
        CopiedWords(old(mem[..]), ptr / 4, mem[..], p / 4, Min(Live(old(H))[ptr], Live(H)[p]) / 4)
      ensures Adjusted(size, 2) != 0 ==> (p == ptr <==> RoomInPlace(old(H), ptr / 4 - 2, Adjusted(size, 2)))
      ensures Adjusted(size, 2) != 0 ==>
        (p == 0 <==> !RoomInPlace(old(H), ptr / 4 - 2, Adjusted(size, 2)) && NoFit(old(F), Adjusted(size, 2)))
    {
      AdjustWords(size);
      LiveBlock(mem[..], H, ctl, ptr);
      var adjust := Adjusted(size, 2);
      if adjust != 0 {
        p := ReallocLive(ptr, size);
      } else {
        ReallocNothing(ptr, size);
        p := ptr;
        Unchanged(mem[..], H, ptr);
      }
    }

    // ---------------------------------------------------------------- the owner of an allocation

    /** The owner of a live allocation writes one of its words. */
    method Store(ptr: Word, i: nat, v: Word)
      requires Valid() && ptr in Live(H) && i < Live(H)[ptr] / 4
      modifies mem
      ensures Valid() && ptr / 4 + i < mem.Length && mem[..] == old(mem[..])[ptr / 4 + i := v]
      ensures OthersKept(old(mem[..]), H, mem[..], H, ptr)
    {
      LiveBlock(mem[..], H, ctl, ptr);
      ghost var b := ptr / 4 - 2;
      ReadHeader(mem[..], H, ctl, b);
      mem[ptr / 4 + i] := v;
      PayloadWrite(old(mem[..]), blocks[..], H, F, {}, pools, ctl, mem[..], b);
      OthersFromSame(old(mem[..]), H, mem[..], H, {b}, b);
    }

    // ---------------------------------------------------------------- creation

    /** control_construct: clears the control structure and points all empty lists at block_null. */
    method ControlConstruct()
      requires Separate() && slBitmap.Length == FL_INDEX_COUNT && blocks.Length == CLASSES
      modifies this`flBitmap, mem, slBitmap, blocks
      ensures flBitmap == 0 && Bitmaps(flBitmap, slBitmap[..], blocks[..], ctl)
      ensures forall c :: 0 <= c < CLASSES ==> blocks[c] == ctl
    {
      mem[ctl + 2] := ctl;
      mem[ctl + 3] := ctl;
      flBitmap := 0;
      var i := 0;
      while i < FL_INDEX_COUNT
        invariant 0 <= i <= FL_INDEX_COUNT && flBitmap == 0
        invariant forall f :: 0 <= f < i ==> slBitmap[f] == 0
        invariant forall c :: 0 <= c < 32 * i ==> blocks[c] == ctl
      {
        slBitmap[i] := 0;
        var j := 0;
        while j < SL_INDEX_COUNT
          invariant 0 <= j <= SL_INDEX_COUNT && flBitmap == 0
          invariant forall f :: 0 <= f <= i ==> slBitmap[f] == 0
          invariant forall c :: 0 <= c < 32 * i + j ==> blocks[c] == ctl
        {
          blocks[32 * i + j] := ctl;
          j := j + 1;
        }
        i := i + 1;
      }
      EmptyBitmaps(slBitmap[..], blocks[..], ctl);
    }

    /** tlsf_create. */
    constructor (memory: array<Word>, control: Word)
      requires memory.Length <= 0x4000_0000 && 0 < control && control + CONTROL_WORDS <= memory.Length
      modifies memory
      ensures mem == memory && ctl == control && fresh(slBitmap) && fresh(blocks)
      ensures Valid() && H == map[] && pools == {}
    {
      mem, ctl, flBitmap := memory, control, 0;
      slBitmap := new Word[FL_INDEX_COUNT];
      blocks := new Word[CLASSES];
      H, F, pools := map[], map[], {};
      new;
      ControlConstruct();
      EmptyHeap(mem[..], blocks[..], ctl);
    }

    /** Makes `b` the header of a free block of `size` bytes after a used one. */
    method WriteFreeHeader(b: Word, size: Word)
      requires b + 1 < mem.Length && size % 4 == 0 && size < BLOCK_SIZE_MAX
      modifies mem
      ensures mem[..] == old(mem[..])[b + 1 := size + 1]
    {
      JunkFlags(size, mem[b + 1]);
      BlockSetSize(b, size);
      mem[b + 1] := WithFree(mem[b + 1]);
      mem[b + 1] := NoPrevFree(mem[b + 1]);
    }

    /** Links the successor of the free block `b` and makes it a zero-size sentinel. */
    method WriteSentinel(b: Word)
      requires b + 1 < mem.Length < WORD_RANGE && BlockNext(b) + 1 < mem.Length && b + 1 < BlockNext(b)
      modifies mem
      ensures mem[..] == old(mem[..])[old(BlockNext(b)) := b][old(BlockNext(b)) + 1 := 2]
    {
      var next := BlockLinkNext(b);
      SentinelFlags(mem[next + 1]);
      BlockSetSize(next, 0);
      mem[next + 1] := NoFree(mem[next + 1]);
      mem[next + 1] := WithPrevFree(mem[next + 1]);
    }

    method PlacePool(b: Word, n: Word, ghost c: nat)
      requires Separate() && Bitmaps(flBitmap, slBitmap[..], blocks[..], ctl) && b != ctl
      requires c == Class(4 * n) < CLASSES && PoolRoom(mem[..], b, n, blocks[c])
      requires blocks[c] + 3 <= b || b + 2 + n < blocks[c] + 3
      modifies this`flBitmap, mem, slBitmap, blocks
      ensures Bitmaps(flBitmap, slBitmap[..], blocks[..], ctl)
      ensures blocks[..] == old(blocks[..])[c := b]
      ensures mem[..] == PoolMem(old(mem[..]), b, n, old(blocks[c]), ctl)
    {
      WriteFreeHeader(b, 4 * n);
      assert BlockSize(b) == 4 * n;
      var fl, sl := MappingInsert(BlockSize(b));
      InsertFreeBlock(b, fl, sl);
      assert mem[b + 1] == 4 * n + 1;
      WriteSentinel(b);
    }

    /** Gives the allocator `n` payload words after the header at `b`, as one free block, and a sentinel. */
    method InstallPool(b: Word, n: Word)
      requires Valid() && Clear(H, pools, ctl, b, n) && b + 2 + n < mem.Length && Class(4 * n) < CLASSES
      modifies this`flBitmap, this`F, this`H, this`pools, mem, slBitmap, blocks
      ensures Valid() && SameAllocs(old(mem[..]), old(H), mem[..], H, {})
      ensures pools == old(pools) + {Pool(b, b + 1 + n)} && H == WithPool(old(H), b, n)
    {
      ghost var c := Class(4 * n);
      HeadClear(mem[..], blocks[..], H, F, pools, ctl, b, n, c);
      PlacePool(b, n, c);
      F := AddPoolStep(old(mem[..]), old(blocks[..]), H, F, pools, ctl, mem[..], blocks[..], b, n, c);
      H, pools := WithPool(H, b, n), pools + {Pool(b, b + 1 + n)};
    }

    /** tlsf_add_pool. Returns null, with nothing changed, for a region that is misaligned, too small or too
        large. The caller owns the region, and keeps the one size that the check lets through but no
        list can hold, BLOCK_SIZE_MAX, away. */
    method AddPool(addr: Word, bytes: Word) returns (pool: Word)
      requires Valid()
      requires Accepted(addr, bytes) ==>
        PoolRegion(mem.Length, ctl, pools, addr, bytes) && PoolBytes(bytes) != BLOCK_SIZE_MAX
      modifies this`flBitmap, this`F, this`H, this`pools, mem, slBitmap, blocks
      ensures Valid() && SameAllocs(old(mem[..]), old(H), mem[..], H, {})
      ensures !Accepted(addr, bytes) ==> pool == 0 && H == old(H) && mem[..] == old(mem[..]) && pools == old(pools)
      ensures Accepted(addr, bytes) ==>
                var p := PoolAt(addr, bytes);
                pool == addr && pools == old(pools) + {p} && H == WithPool(old(H), p.first, p.last - p.first - 1)
      ensures pool == if addr % 4 == 0 && 20 <= bytes <= 1073741835 then addr else 0
      ensures pool != 0 ==>
                var first, n := addr / 4 - 1, (bytes - 8) / 4;
                && pools == old(pools) + {Pool(first, first + 1 + n)}
                && H == old(H)[first := Block(n, true, false)][first + 1 + n := Block(0, false, true)]
    {
      var poolBytes := PoolBytes(bytes);
      pool := 0;
      if addr % 4 != 0 || poolBytes < BLOCK_SIZE_MIN || poolBytes > BLOCK_SIZE_MAX {
        SameAllocsRefl(mem[..], H, {});
      } else {
        RegionClear(mem.Length, H, pools, ctl, addr, bytes);
        InstallPool(addr / 4 - 1, poolBytes / 4);
        pool := addr;
      }
    }

    // ---------------------------------------------------------------- consistency checks

    /** One row of the inner loop of tlsf_check: the insistences about list (i, j). */
    method CheckList(i: nat, j: nat) returns (status: int)
      requires Valid() && i < FL_INDEX_COUNT && j < SL_INDEX_COUNT
      ensures status == 0
    {
      ghost var m: seq<Word>, heads: seq<Word> := mem[..], blocks[..];
      status := 0;
      var b := blocks[32 * i + j];
      assert HeadOk(m, heads, F, ctl, 32 * i + j);
      ghost var rest := F.Keys;
      while b != ctl
        invariant status == 0
        invariant b != ctl ==> b in F && F[b].cls == 32 * i + j && Below(F, rest, b)
        decreases rest
      {
        MemberChecks(m, heads, H, F, pools, ctl, b);
        ReadHeader(m, H, ctl, b);
        ReadHeader(m, H, ctl, Next(H, b));
        var next := BlockNext(b);
        if !IsFree(b) { status := status - 1; }
        if IsPrevFree(b) { status := status - 1; }
        if IsFree(next) { status := status - 1; }
        if !IsPrevFree(next) { status := status - 1; }
        if BlockSize(b) < BLOCK_SIZE_MIN { status := status - 1; }
        var fli, sli := MappingInsert(BlockSize(b));
        if fli != i || sli != j { status := status - 1; }
        assert Linked(m, heads, F, ctl, b);
        rest := rest - {b};
        b := mem[b + 2];
      }
    }

    /** tlsf_check: every insistence about bitmaps, lists and neighbours holds. */
    method Check() returns (status: int)
      requires Valid()
      ensures status == 0
    {
      status := 0;
      var i := 0;
      while i < FL_INDEX_COUNT
        invariant 0 <= i <= FL_INDEX_COUNT && status == 0
      {
        var j := 0;
        while j < SL_INDEX_COUNT
          invariant 0 <= j <= SL_INDEX_COUNT && status == 0
        {
          BitsOfList(flBitmap, slBitmap[..], blocks[..], ctl, i, j);
          var flMap, slMap := And(flBitmap, Pow2(i)), And(slBitmap[i], Pow2(j));
          if flMap == 0 && slMap != 0 { status := status - 1; }
          if slMap == 0 {
            if blocks[32 * i + j] != ctl { status := status - 1; }
          } else {
            if slBitmap[i] == 0 { status := status - 1; }
            if blocks[32 * i + j] == ctl { status := status - 1; }
            var s := CheckList(i, j);
            status := status + s;
          }
          j := j + 1;
        }
        i := i + 1;
      }
    }

    /** tlsf_check_pool: walking the pool at byte address `pool` from block to block, every "previous
        block is free" flag repeats the "free" flag of the block before. */
    method CheckPool(pool: Word, ghost p: Pool) returns (status: int)
      requires Valid() && p in pools && pool == 4 * (p.first + 1)
      ensures status == 0
    {
      status := 0;
      var prevStatus := false;
      assert PoolOk(H, p);
      var b := pool / 4 - 1;
      ReadHeader(mem[..], H, ctl, b);
      while BlockSize(b) != 0
        invariant status == 0 && b in H && p.first <= b <= p.last && b + 1 < mem.Length
        invariant BlockSize(b) == 4 * H[b].n && prevStatus == H[b].prevFree
        decreases p.last - b
      {
        ReadHeader(mem[..], H, ctl, b);
        if prevStatus != IsPrevFree(b) { status := status - 1; }
        prevStatus := IsFree(b);
        if b < p.last { NotSentinel(H, pools, ctl, p, b); }
        b := BlockNext(b);
        ReadHeader(mem[..], H, ctl, b);
      }
    }
  }
}
