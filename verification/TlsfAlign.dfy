/** Request sizes and alignment (system/tlsf.c, align_up, adjust_request_size and the gap computation
    of tlsf_memalign), on 32-bit words that wrap around. Alignments are powers of two, 2^k. */
module TlsfAlign {
  import opened Bits
  import opened TlsfMapping

  // ------------------------------------------------------------------ request sizes

  /** A sum or difference of two words, truncated to 32 bits: Wrap32 by cases. */
  function Wrap(x: int): (r: Word)
    requires -0x1_0000_0000 <= x < 0x2_0000_0000
  {
    if x < 0 then x + 0x1_0000_0000 else if x >= 0x1_0000_0000 then x - 0x1_0000_0000 else x
  }

  /** What rounding `x` up to a multiple of 2^k gives on 32 bits. */
  function Up(x: Word, k: nat): (r: Word)
    requires k < 32
  {
    Pow2Range(k);
    Down(Wrap(x + Pow2(k) - 1), k)
  }

  lemma Pow2Range(k: nat)
    requires k < 32
    ensures Pow2(k) <= 0x8000_0000
    ensures k == 0 ==> Pow2(k) == 1
    ensures k == 1 ==> Pow2(k) == 2
    ensures k == 2 ==> Pow2(k) == 4
    ensures k == 3 ==> Pow2(k) == 8
    ensures k > 3 ==> Pow2(k) >= 16
    ensures k <= 30 ==> Pow2(k) <= 0x4000_0000
    ensures k == 31 ==> Pow2(k) == 0x8000_0000
  {
    Pow2Consts();
    assert Pow2(3) == 8;
    if k < 31 { Pow2Mono(k, 31); }
    if k < 30 { Pow2Mono(k, 30); }
    if k > 3 { Pow2Mono(3, k); }
  }

  /** `(x + (align - 1)) & ~(align - 1)`. */
  method AlignUp(x: Word, align: Word, ghost k: nat) returns (r: Word)
    requires k < 32 && align == Pow2(k)
    ensures r == Up(x, k)
  {
    Pow2Consts();
    Pow2Range(k);
    AndHigh(Wrap(x + (align - 1)), k, 32, WORD_RANGE - align);
    r := And(Wrap(x + (align - 1)), WORD_RANGE - align);
  }

  /** What a request for `size` bytes, rounded to 2^k, becomes. */
  function Adjusted(size: Word, k: nat): (r: Word)
    requires k < 32
  {
    if size == 0 then 0
    else if Up(size, k) >= BLOCK_SIZE_MAX then 0
    else if Up(size, k) > BLOCK_SIZE_MIN then Up(size, k) else BLOCK_SIZE_MIN
  }

  method AdjustRequestSize(size: Word, align: Word, ghost k: nat) returns (adjust: Word)
    requires k < 32 && align == Pow2(k)
    ensures adjust == Adjusted(size, k)
  {
    adjust := 0;
    if size != 0 {
      var aligned := AlignUp(size, align, k);
      if aligned < BLOCK_SIZE_MAX {
        adjust := if aligned > BLOCK_SIZE_MIN then aligned else BLOCK_SIZE_MIN;
      }
    }
  }

  /** What a request becomes: word aligned, at least the minimum, zero when too large; and 12 for
      the three largest sizes, whose rounding up wraps around to zero. */
  lemma AdjustWords(size: Word)
    ensures var r := Adjusted(size, 2);
            && r < BLOCK_SIZE_MAX && r % 4 == 0 && (r != 0 ==> r >= BLOCK_SIZE_MIN)
            && (r == 0 <==> size == 0 || BLOCK_SIZE_MAX - 4 < size <= WORD_RANGE - 4)
            && (r != 0 ==> (size <= r <==> size <= WORD_RANGE - 4))
            && (0 < size <= BLOCK_SIZE_MAX - 4 ==> r == if size <= 12 then 12 else (size + 3) / 4 * 4)
            && (size > WORD_RANGE - 4 ==> r == 12)
  {
    assert Pow2(2) == 4;
    var y := Wrap(size + 3);
    assert Down(y, 2) == 2 * (2 * (y / 2 / 2)) == y / 4 * 4;
  }

  // ------------------------------------------------------------------ aligned requests

  /** Rounding up without wrapping finds the next multiple; a multiple is its own. */
  lemma UpNext(x: Word, k: nat)
    requires k < 32 && x + Pow2(k) <= WORD_RANGE
    ensures x <= Up(x, k) < x + Pow2(k) && Aligned(Up(x, k), k)
    ensures Aligned(x, k) ==> Up(x, k) == x
  {
    Pow2Range(k);
    DownAligned(x + Pow2(k) - 1, k);
    if Aligned(x, k) { DownOfAligned(x, k); }
  }

  /** Rounding up past the end of the address space wraps around to zero. */
  lemma UpWraps(x: Word, k: nat)
    requires k < 32 && x + Pow2(k) > WORD_RANGE
    ensures Up(x, k) == 0
  {
    Pow2Range(k);
    DownSmall(x + Pow2(k) - 1 - WORD_RANGE, k);
  }

  lemma {:induction false} DownSmall(w: nat, k: nat)
    requires w < Pow2(k)
    ensures Down(w, k) == 0
  {
    if k > 0 { DownSmall(w / 2, k - 1); }
  }

  lemma AlignedFour(x: nat, k: nat)
    requires k >= 2 && Aligned(x, k)
    ensures x % 4 == 0
  {
    assert Aligned(x / 2, k - 1);
  }

  lemma {:induction false} AlignedLess(x: nat, j: nat, k: nat)
    requires Aligned(x, k) && j <= k
    ensures Aligned(x, j)
  {
    if j > 0 { AlignedLess(x / 2, j - 1, k - 1); }
  }

  lemma PaddingBelowTop(sum: Word, k: nat)
    requires 3 <= k <= 30 && BLOCK_SIZE_MIN <= sum && sum + Pow2(k) <= WORD_RANGE
    ensures var padded := Adjusted(sum, k);
            padded < BLOCK_SIZE_MAX && padded % 4 == 0 && (padded == 0 || padded >= sum)
  {
    UpNext(sum, k);
    AlignedFour(Up(sum, k), k);
  }

  lemma PaddingAtTop(sum: Word)
    requires sum > 0x8000_0000
    ensures Adjusted(sum, 31) == BLOCK_SIZE_MIN
  {
    Pow2Range(31);
    UpWraps(sum, 31);
  }

  /** The size searched for on behalf of an aligned request leaves room for the largest gap exactly
      when the alignment is below 2^31: there, rounding up wraps around and 12 bytes are searched for. */
  lemma PaddingCoversGap(adjust: Word, align: Word, k: nat)
    requires BLOCK_SIZE_MIN <= adjust < BLOCK_SIZE_MAX && 3 <= k < 32 && align == Pow2(k)
    ensures align <= 0x8000_0000
    ensures var padded := Adjusted(adjust + align + 16, k);
            && padded < BLOCK_SIZE_MAX && padded % 4 == 0
            && ((padded == 0 || padded >= adjust + align + 16) <==> align < 0x8000_0000)
            && (align == 0x8000_0000 ==> padded == BLOCK_SIZE_MIN)
  {
    Pow2Range(k);
    if k <= 30 { PaddingBelowTop(adjust + align + 16, k); } else { PaddingAtTop(adjust + align + 16); }
  }

  lemma WrapFour(a: Word, b: Word)
    requires a % 4 == 0 && b % 4 == 0
    ensures Wrap(a - b) % 4 == 0
  {}

  lemma UpFour(x: Word, k: nat)
    requires k < 32 && x % 4 == 0
    ensures Aligned(Up(x, k), k) && (k >= 2 ==> Up(x, k) % 4 == 0) && (k <= 2 ==> Up(x, k) == x)
  {
    UpAligned(x, k);
    if k >= 2 { AlignedFour(Up(x, k), k); }
    if k <= 2 { UpSmall(x, k); }
  }

  lemma UpAligned(x: Word, k: nat)
    requires k < 32
    ensures Aligned(Up(x, k), k)
  {
    Pow2Range(k);
    DownAligned(Wrap(x + Pow2(k) - 1), k);
  }

  lemma UpSmall(x: Word, k: nat)
    requires k <= 2 && x % 4 == 0
    ensures Up(x, k) == x
  {
    assert Aligned(x, 2);
    AlignedLess(x, k, 2);
    Pow2Range(k);
    UpNext(x, k);
  }

  /** How far it is from `x` up to `a`, the result of rounding up in steps of `p`. */
  lemma GapArith(x: Word, a: Word, p: Word)
    requires 0 < p <= 0x8000_0000
    requires if x + p <= WORD_RANGE then x <= a < x + p else a == 0
    ensures Wrap(a - x) < p && Wrap(x + Wrap(a - x)) == a
    ensures x + p <= WORD_RANGE ==> Wrap(a - x) == a - x
  {}

  lemma UpBounds(x: Word, k: nat, p: Word)
    requires k < 32 && p == Pow2(k)
    ensures 0 < p <= 0x8000_0000
    ensures if x + p <= WORD_RANGE then x <= Up(x, k) < x + p else Up(x, k) == 0
  {
    Pow2Range(k);
    if x + p <= WORD_RANGE { UpNext(x, k); } else { UpWraps(x, k); }
  }

  lemma FirstGap(ptr: Word, k: nat, p: Word)
    requires k < 32 && p == Pow2(k)
    ensures 0 < p <= 0x8000_0000
    ensures Wrap(Up(ptr, k) - ptr) < p && Wrap(ptr + Wrap(Up(ptr, k) - ptr)) == Up(ptr, k)
    ensures ptr + p <= WORD_RANGE ==> Wrap(Up(ptr, k) - ptr) == Up(ptr, k) - ptr
  {
    UpBounds(ptr, k, p);
    GapArith(ptr, Up(ptr, k), p);
  }

  lemma WrapAligned(x: nat, k: nat)
    requires k < 32 && Aligned(x, k) && x <= WORD_RANGE
    ensures Aligned(Wrap(x), k)
  {
    if x == WORD_RANGE { DownAligned(0, k); }
  }

  /** From alignment 16 on, a gap below 16 grows by one whole step. */
  lemma SecondGapWide(a: Word, k: nat)
    requires 4 <= k < 32 && Aligned(a, k)
    ensures Pow2(k) <= 0x8000_0000
    ensures var b := Wrap(a + Pow2(k)); Up(b, k) == b && Aligned(b, k)
  {
    Pow2Range(k);
    assert Pow2(32) == WORD_RANGE by { Pow2Consts(); }
    AlignedBelow(a, k, 32);
    AlignedPlus(a, k);
    WrapAligned(a + Pow2(k), k);
    var b := Wrap(a + Pow2(k));
    AlignedBelow(b, k, 32);
    UpNext(b, k);
  }

  /** For alignment 8 the only gap below 16 is 4, and it grows to 20. */
  lemma SecondGapEight(a: Word)
    requires Aligned(a, 3) && a + 20 <= WORD_RANGE
    ensures Up(a + 12, 3) == a + 16 && Aligned(a + 16, 3)
  {
    Pow2Range(3);
    AlignedPlus(a, 3);
    AlignedPlus(a + 8, 3);
    DownOfAligned(a + 16, 3);
    UpNext(a + 12, 3);
    AlignedMod(a, 3);
    AlignedMod(Up(a + 12, 3), 3);
  }

  lemma StepArith(ptr: Word, gap: Word, p: Word)
    requires 0 < gap < 16 <= p <= 0x8000_0000
    ensures Wrap(Wrap(Wrap(ptr + gap) + p) - ptr) == gap + p
  {}

  /** The second gap: 20 for alignment 8, one whole step more from 16 on. */
  lemma SecondGap(ptr: Word, gap: Word, k: nat, p: Word)
    requires 3 <= k < 32 && p == Pow2(k) && 0 < gap < 16 && Aligned(Wrap(ptr + gap), k)
    requires k == 3 ==> gap == 4 && ptr + 24 <= WORD_RANGE
    ensures p <= 0x8000_0000 && (k == 3 ==> p == 8) && (k > 3 ==> p >= 16)
    ensures k == 3 ==> Wrap(Wrap(ptr + gap) + 12) == ptr + 16 && Up(ptr + 16, k) == ptr + 20 && Aligned(ptr + 20, k)
    ensures k > 3 ==> var b := Wrap(Wrap(ptr + gap) + p); Up(b, k) == b && Wrap(b - ptr) == gap + p && Aligned(b, k)
  {
    Pow2Range(k);
    if k == 3 {
      SecondGapEight(ptr + 4);
    } else {
      SecondGapWide(Wrap(ptr + gap), k);
      StepArith(ptr, gap, p);
    }
  }

  lemma WrapBack(a: Word, x: Word)
    ensures Wrap(x + Wrap(a - x)) == a
  {}

  lemma FourLemma(aligned: Word, ptr: Word, k: nat)
    requires ptr % 4 == 0 && (k >= 2 ==> aligned % 4 == 0) && (k <= 2 ==> aligned == ptr)
    ensures Wrap(aligned - ptr) % 4 == 0 && (k <= 2 ==> Wrap(aligned - ptr) == 0)
  {}

  lemma EightLemma(gap: Word, align: Word, k: nat)
    requires k < 32 && align == Pow2(k) && 0 < gap < align && gap % 4 == 0
    ensures k == 3 ==> gap == 4 && align == 8
    ensures k > 2 && k != 3 ==> align >= 16
  {
    Pow2Range(k);
  }

  lemma SecondGapArith(gap: Word, g: Word, p: Word)
    requires 0 < gap < 16 && gap % 4 == 0 && gap < p <= 0x8000_0000 && g % 4 == 0
    requires (g == gap + p && p >= 16) || (g == 20 && p == 8)
    ensures 16 <= g && g + 16 < WORD_RANGE && g <= p + 12
  {}

  lemma SecondGapResult(ptr: Word, gap: Word, k: nat, p: Word, offset: Word)
    requires 3 <= k < 32 && p == Pow2(k) && 0 < gap < 16 && gap < p
    requires gap % 4 == 0 && Aligned(Wrap(ptr + gap), k) && ptr % 4 == 0
    requires k <= 30 ==> ptr + p + 28 <= WORD_RANGE
    requires offset == if 16 - gap > p then 16 - gap else p
    ensures var a := Up(Wrap(Wrap(ptr + gap) + offset), k); var g := Wrap(a - ptr);
            g % 4 == 0 && 16 <= g && g + 16 < WORD_RANGE && g <= p + 12 && Wrap(ptr + g) == a && Aligned(a, k)
  {
    EightLemma(gap, p, k);
    SecondGap(ptr, gap, k, p);
    var a := Up(Wrap(Wrap(ptr + gap) + offset), k);
    assert Aligned(a, k);
    AlignedFour(a, k);
    WrapFour(a, ptr);
    WrapBack(a, ptr);
    SecondGapArith(gap, Wrap(a - ptr), p);
  }

  /** How far the payload at `ptr` must be moved up to be aligned and leave room for a free block in
      front: nothing, or at least a whole header, and for alignments below 2^31 at most align + 12. */
  method AlignmentGap(ptr: Word, align: Word, ghost k: nat) returns (gap: Word)
    requires k < 32 && align == Pow2(k) && ptr % 4 == 0
    requires 3 <= k <= 30 ==> ptr + align + 28 <= WORD_RANGE
    ensures gap % 4 == 0 && (gap == 0 || gap >= 16) && gap + 16 < WORD_RANGE
    ensures k <= 2 ==> gap == 0
    ensures k <= 30 ==> gap <= align + 12 && Aligned(Wrap(ptr + gap), k)
  {
    var aligned := AlignUp(ptr, align, k);
    UpFour(ptr, k);
    FirstGap(ptr, k, align);
    gap := Wrap(aligned - ptr);
    FourLemma(aligned, ptr, k);
    if gap != 0 && gap < 16 {
      var gapRemain := 16 - gap;
      var offset := if gapRemain > align then gapRemain else align;
      SecondGapResult(ptr, gap, k, align, offset);
      aligned := AlignUp(Wrap(aligned + offset), align, k);
      gap := Wrap(aligned - ptr);
    }
  }

  /** The size searched for on behalf of a request adjusted to `adjust`, to be aligned to 2^k. */
  function Padded(adjust: Word, k: nat): (r: Word)
    requires k < 32 && adjust < BLOCK_SIZE_MAX
  {
    Pow2Range(k);
    if adjust != 0 && k >= 3 then Adjusted(adjust + Pow2(k) + 16, k) else adjust
  }

  /** The searched size in numbers: the request itself up to alignment 4; above that the multiple of 2^k next to
      the request, the alignment and a header together, if some block can be that large; and 12 for alignment 2^31,
      where the sum wraps around. */
  lemma PaddedWords(adjust: Word, k: nat) returns (c: nat)
    requires 0 < adjust < BLOCK_SIZE_MAX && k < 32
    ensures k <= 2 ==> Padded(adjust, k) == adjust
    ensures 3 <= k <= 30 ==>
      Aligned(c, k) && adjust + Pow2(k) + 16 <= c < adjust + 2 * Pow2(k) + 16
      && Padded(adjust, k) == if c < 0x4000_0000 then c else 0
    ensures k == 31 ==> Padded(adjust, k) == 12
  {
    Pow2Range(k);
    c := 0;
    if 3 <= k <= 30 {
      UpNext(adjust + Pow2(k) + 16, k);
      c := Up(adjust + Pow2(k) + 16, k);
    } else if k == 31 {
      PaddingAtTop(adjust + 0x8000_0010);
    }
  }
}
