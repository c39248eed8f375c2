/** Size classes of the two-level segregated fit allocator (system/tlsf.c): the generic bit scans,
    the class a block size is filed under, and the class a request is searched from. */
module TlsfMapping {
  import opened Bits

  const SL_INDEX_COUNT_LOG2 := 5
  const SL_INDEX_COUNT := 32
  const FL_INDEX_SHIFT := 7
  const FL_INDEX_COUNT := 24
  const SMALL_BLOCK_SIZE := 128
  const CLASSES := 768               // FL_INDEX_COUNT * SL_INDEX_COUNT
  const BLOCK_SIZE_MIN := 12
  const BLOCK_SIZE_MAX := 0x4000_0000
  const WORD_RANGE := 0x1_0000_0000

  /** Row-major index of the free list (`fl`, `sl`) that a block of `size` bytes belongs to. */
  function Class(size: nat): (c: nat)
  {
    if size < SMALL_BLOCK_SIZE then size / 4
    else
      LogAtLeast7(size);
      var k := Log(size);
      32 * (k - 6) + (Shr(size, k - 5) - 32)
  }

  /** A request rounded up so that every block of its class is large enough. */
  function RoundUp(size: nat): (r: nat)
    ensures size <= r
  {
    if size < SMALL_BLOCK_SIZE then size
    else LogAtLeast7(size); size + Pow2(Log(size) - 5) - 1
  }

  lemma LogAtLeast7(size: nat)
    requires size >= SMALL_BLOCK_SIZE
    ensures Log(size) >= 7
    ensures 32 <= Shr(size, Log(size) - 5) < 64
  {
    LogMono(128, size);
    assert Log(128) == 7 by { LogIs(128, 7); }
    TopDigits(size);
  }

  /** Shifting out all but the top six digits leaves a number in [32, 64). */
  lemma {:induction false} TopDigits(size: nat)
    requires Log(size) >= 5
    ensures 32 <= Shr(size, Log(size) - 5) < 64
  {
    if Log(size) == 5 { LogBounds(size); } else { TopDigits(size / 2); }
  }

  // ------------------------------------------------------------------ properties

  /** A class is in range exactly for sizes below the maximum block size. */
  lemma ClassInRange(size: nat)
    ensures Class(size) < CLASSES <==> size < BLOCK_SIZE_MAX
  {
    if size >= SMALL_BLOCK_SIZE {
      LogAtLeast7(size);
      LogBounds(size);
      Pow2Consts();
      if Log(size) < 30 { Pow2Mono(Log(size), 30); }
      if Log(size) > 30 { Pow2Mono(30, Log(size)); }
    }
  }

  /** The row of a class. */
  lemma ClassRow(size: nat)
    requires size >= SMALL_BLOCK_SIZE
    ensures Log(size) >= 7 && 32 * (Log(size) - 6) <= Class(size) < 32 * (Log(size) - 5)
  {
    LogAtLeast7(size);
  }

  lemma ClassMono(s: nat, t: nat)
    requires s <= t
    ensures Class(s) <= Class(t)
  {
    if t >= SMALL_BLOCK_SIZE {
      LogMono(s, t);
      if Log(s) < Log(t) {
        ClassBelow(s, t);
      } else {
        LogAtLeast7(t);
        if s < SMALL_BLOCK_SIZE { SmallLog(s); }
        LogAtLeast7(s);
        ShrMono(s, t, Log(s) - 5);
      }
    }
  }

  /** Dividing by 2^j after rounding up separates `size` from everything smaller. */
  lemma {:induction false} RoundedShift(s: nat, size: nat, j: nat)
    requires Shr(s, j) >= Shr(size + Pow2(j) - 1, j)
    ensures s >= size
  {
    if j > 0 {
      var half := (size + 1) / 2;
      assert (size + Pow2(j) - 1) / 2 == half + Pow2(j - 1) - 1;
      RoundedShift(s / 2, half, j - 1);
    }
  }

  lemma ClassBelow(s: nat, t: nat)
    requires Log(s) < Log(t) && t >= SMALL_BLOCK_SIZE
    ensures Class(s) < Class(t)
  {
    ClassRow(t);
    if s >= SMALL_BLOCK_SIZE { ClassRow(s); }
  }

  lemma ClassWithin(s: nat, t: nat, k: nat)
    requires s >= SMALL_BLOCK_SIZE && t >= SMALL_BLOCK_SIZE && Log(s) == Log(t) == k && k >= 7
    requires Shr(s, k - 5) < Shr(t, k - 5)
    ensures Class(s) < Class(t)
  {
    LogAtLeast7(s); LogAtLeast7(t);
  }

  lemma RoundUpSeparates(s: nat, size: nat)
    requires s < size && size >= SMALL_BLOCK_SIZE
    ensures Class(s) < Class(RoundUp(size))
  {
    LogAtLeast7(size);
    var k := Log(size);
    var t := size + Pow2(k - 5) - 1;
    assert t == RoundUp(size);
    LogMono(s, size);
    LogMono(size, t);
    if Log(s) < Log(t) {
      ClassBelow(s, t);
    } else {
      if Shr(s, k - 5) >= Shr(t, k - 5) { RoundedShift(s, size, k - 5); }
      if s < SMALL_BLOCK_SIZE { SmallLog(s); }
      ClassWithin(s, t, k);
    }
  }

  lemma SmallLog(s: nat)
    requires s < SMALL_BLOCK_SIZE
    ensures Log(s) < 7
  {
    LogMono(s, 127);
    assert Log(127) == 6 by { LogIs(127, 6); }
  }

  /** Good fit: whatever class at or after the searched one a block comes from, it is large enough. */
  lemma GoodFit(s: nat, size: nat)
    requires s % 4 == 0 && size % 4 == 0
    requires Class(s) >= Class(RoundUp(size))
    ensures s >= size
  {
    if s < size && size >= SMALL_BLOCK_SIZE { RoundUpSeparates(s, size); }
  }

  // ------------------------------------------------------------------ bit scans

  /** Numbers with the same quotient by 2^j, large enough, are in the same class. */
  lemma SameClass(s: nat, t: nat, j: nat)
    requires j >= 2 && s / Pow2(j) == t / Pow2(j) >= 32
    ensures Class(s) == Class(t)
  {
    ShrIsQuotient(s, j);
    ShrIsQuotient(t, j);
    LogShr(s, j);
    LogShr(t, j);
    LogMono(32, Shr(s, j));
    assert Log(32) == 5 by { LogIs(32, 5); }
    ShrTwice(s, j, Log(s) - 5 - j);
    ShrTwice(t, j, Log(t) - 5 - j);
    if s < SMALL_BLOCK_SIZE { SmallLog(s); }
    if t < SMALL_BLOCK_SIZE { SmallLog(t); }
  }

  /** A multiple of 2^j between 2^(j+5) and 2^(j+6) starts a class. */
  lemma ClassStarts(s: nat, q: nat, j: nat)
    requires j >= 2 && 32 <= q <= 64 && s < q * Pow2(j)
    ensures Class(s) < Class(q * Pow2(j))
  {
    var b := q * Pow2(j);
    MultipleUnique(b, Pow2(j), q, 0);
    ShrIsQuotient(b, j);
    ShrIsQuotient(s, j);
    LogShr(b, j);
    LogMono(32, q);
    assert Log(32) == 5 by { LogIs(32, 5); }
    if b < SMALL_BLOCK_SIZE { SmallLog(b); }
    LogMono(s, b);
    if Log(s) < Log(b) {
      ClassBelow(s, b);
    } else {
      BelowMultiple(s, Pow2(j), q);
      SameTop(s, q, j);
      if s < SMALL_BLOCK_SIZE { SmallLog(s); }
      ClassWithin(s, b, Log(b));
    }
  }

  lemma BelowMultiple(s: nat, p: nat, q: nat)
    requires p > 0 && s < q * p
    ensures s / p < q
  {
    var k := s / p;
    assert s == k * p + s % p;
    if k >= q { AtLeastMultiple(k, q, p); }
  }

  lemma AtLeastMultiple(k: nat, q: nat, p: nat)
    requires k >= q
    ensures k * p >= q * p
  {
    var d: nat := k - q;
    assert k * p == (q + d) * p == q * p + d * p;
  }

  /** Equal logarithms leave no room for the multiple to be the next power. */
  lemma SameTop(s: nat, q: nat, j: nat)
    requires 32 <= q <= 64 && s / Pow2(j) < q && Log(s) == j + Log(q) && s > 0
    ensures Log(q) == 5
  {
    if q == 64 {
      LogIs(64, 6);
      NextPower(s, j);
    } else {
      LogIs(q, 5);
    }
  }

  lemma NextPower(s: nat, j: nat)
    requires s > 0 && Log(s) == j + 6
    ensures s / Pow2(j) >= 64
  {
    LogBounds(s);
    Pow2Add(6, j);
    assert Pow2(6) == 64;
    AboveMultiple(s, Pow2(j), 64);
  }

  lemma AboveMultiple(s: nat, p: nat, q: nat)
    requires p > 0 && q * p <= s
    ensures q <= s / p
  {
    var k := s / p;
    MultipleBelow(s, p);
    assert (k + 1) * p == k * p + p;
    if q >= k + 1 { AtLeastMultiple(q, k + 1, p); }
  }

  /** Good fit in numbers, for sizes divisible by 4: below 128 bytes the classes searched are those of all sizes
      from the request on; from 32 * 2^j up to 64 * 2^j bytes they are those of the sizes that are still large
      enough when rounded down to a multiple of 2^j. */
  lemma SearchedExactly(s: nat, size: nat, j: nat)
    requires s % 4 == 0 && size % 4 == 0
    ensures size < 128 ==> (Class(s) >= Class(RoundUp(size)) <==> s >= size)
    ensures j >= 2 && 32 * Pow2(j) <= size < 64 * Pow2(j) ==>
      (Class(s) >= Class(RoundUp(size)) <==> s / Pow2(j) * Pow2(j) >= size)
  {
    if size < 128 {
      if s >= size { ClassMono(size, s); } else { ClassMono(s, 124); }
    }
    if j >= 2 && 32 * Pow2(j) <= size < 64 * Pow2(j) { LargeExactly(s, size, j); }
  }

  lemma LargeExactly(s: nat, size: nat, j: nat)
    requires j >= 2 && 32 * Pow2(j) <= size < 64 * Pow2(j)
    ensures Class(s) >= Class(RoundUp(size)) <==> s / Pow2(j) * Pow2(j) >= size
  {
    RoundUpIs(size, j);
    if s / Pow2(j) * Pow2(j) >= size { LargeFound(s, size, j); } else { LargeMissed(s, size, j); }
  }

  lemma LargeFound(s: nat, size: nat, j: nat)
    requires j >= 2 && 32 * Pow2(j) <= size <= s / Pow2(j) * Pow2(j)
    ensures Class(s) >= Class(size + Pow2(j) - 1)
  {
    var p, q := Pow2(j), s / Pow2(j);
    MultipleBelow(s, p);
    SameBlock(size, j, q);
    ClassMono(q * p, s);
    ClassMono(size + p - 1, q * p + (p - 1));
  }

  lemma LargeMissed(s: nat, size: nat, j: nat)
    requires j >= 2 && 32 * Pow2(j) <= size < 64 * Pow2(j) && s / Pow2(j) * Pow2(j) < size
    ensures Class(s) < Class(size + Pow2(j) - 1)
  {
    var p, q := Pow2(j), s / Pow2(j);
    var t := size + p - 1;
    var c := t / p;
    CeilBetween(size, p, c);
    if q >= c { AtLeastMultiple(q, c, p); }
    BelowNext(s, p, q, c);
    ClassStarts(s, c, j);
    MultipleBelow(t, p);
    ClassMono(c * p, t);
  }

  lemma MultipleBelow(s: nat, p: nat)
    requires p > 0
    ensures s / p * p <= s < s / p * p + p
  {
    assert s == (s / p) * p + s % p;
  }

  lemma RoundUpIs(size: nat, j: nat)
    requires j >= 2 && 32 * Pow2(j) <= size < 64 * Pow2(j)
    ensures RoundUp(size) == size + Pow2(j) - 1
  {
    Pow2Add(5, j);
    assert Pow2(5) == 32;
    Pow2Four(j);
    LogIs(size, j + 5);
  }

  lemma SameBlock(size: nat, j: nat, q: nat)
    requires 32 * Pow2(j) <= size <= q * Pow2(j) && j >= 2
    ensures Class(q * Pow2(j)) == Class(q * Pow2(j) + (Pow2(j) - 1))
  {
    var p := Pow2(j);
    MultipleUnique(q * p, p, q, 0);
    MultipleUnique(q * p + (p - 1), p, q, p - 1);
    AboveMultiple(q * p, p, 32);
    SameClass(q * p, q * p + (p - 1), j);
  }

  lemma Pow2Four(j: nat)
    requires j >= 2
    ensures Pow2(j) >= 4
  {
    Pow2Consts();
    if j > 2 { Pow2Mono(2, j); }
  }

  lemma CeilBetween(size: nat, p: nat, c: nat)
    requires p > 0 && 32 * p <= size < 64 * p && c == (size + p - 1) / p
    ensures size <= c * p && 32 <= c <= 64
  {
    var t := size + p - 1;
    assert t == c * p + t % p;
    AboveMultiple(t, p, 32);
    assert t < 65 * p;
    BelowMultiple(t, p, 65);
  }

  lemma BelowNext(s: nat, p: nat, q: nat, c: nat)
    requires p > 0 && q == s / p && q < c
    ensures s < c * p
  {
    assert s == q * p + s % p;
    AtLeastMultiple(c, q + 1, p);
    assert (q + 1) * p == q * p + p;
  }

  /** `w & ~(2^k - 1)` on 32 bits is zero exactly when `w` is below 2^k. */
  lemma {:induction false} TopMask(w: nat, k: nat, width: nat, mask: nat)
    requires k <= width && w < Pow2(width) && mask == Pow2(width) - Pow2(k)
    ensures And(w, mask) == 0 <==> w < Pow2(k)
    decreases width
  {
    if w == 0 {
    } else if k == 0 {
      if width == 0 {} else {
        assert mask == Pow2(width) - 1;
        MaskFrom(w, 0, width, mask);
        var i := SomeBit(w);
        assert Bit(And(w, mask), i);
        BitZero(i);
      }
    } else if width == 0 {
    } else {
      assert mask % 2 == 0 && mask / 2 == Pow2(width - 1) - Pow2(k - 1) by {
        if k < width { Pow2Mono(k, width); }
      }
      TopMask(w / 2, k - 1, width - 1, mask / 2);
    }
  }

  method FlsGeneric(word: Word) returns (bit: int)
    ensures bit == Log(word) + 1
  {
    Pow2Consts();
    var w: int := word;
    bit := 32;
    if w == 0 { bit := bit - 1; }
    TopMask(w, 16, 32, 0xffff_0000);
    if And(w, 0xffff_0000) == 0 { if w > 0 { LogShl(w, 16); } w := w * 0x1_0000; bit := bit - 16; }
    TopMask(w, 24, 32, 0xff00_0000);
    if And(w, 0xff00_0000) == 0 { if w > 0 { LogShl(w, 8); } w := w * 0x100; bit := bit - 8; }
    TopMask(w, 28, 32, 0xf000_0000);
    if And(w, 0xf000_0000) == 0 { if w > 0 { LogShl(w, 4); } w := w * 16; bit := bit - 4; }
    TopMask(w, 30, 32, 0xc000_0000);
    if And(w, 0xc000_0000) == 0 { if w > 0 { LogShl(w, 2); } w := w * 4; bit := bit - 2; }
    TopMask(w, 31, 32, 0x8000_0000);
    if And(w, 0x8000_0000) == 0 { if w > 0 { LogShl(w, 1); } w := w * 2; bit := bit - 1; }
    if word > 0 { LogIs(w, 31); }
  }

  method Fls(word: Word) returns (bit: int)
    ensures bit == Log(word)
  {
    bit := FlsGeneric(word);
    bit := bit - 1;
  }

  method Ffs(word: Word) returns (bit: int)
    ensures word == 0 ==> bit == -1
    ensures word != 0 ==> bit == Low(word)
  {
    Pow2Consts();
    var lowest := And(word, (WORD_RANGE - word) % WORD_RANGE);
    AndBound(word, (WORD_RANGE - word) % WORD_RANGE);
    bit := FlsGeneric(lowest);
    bit := bit - 1;
    if word != 0 {
      IsolateLow(word, 32);
      LogIs(lowest, Low(word));
    }
  }

  // ------------------------------------------------------------------ mapping

  method MappingInsert(size: Word) returns (fl: int, sl: int)
    ensures 0 <= fl && 0 <= sl < SL_INDEX_COUNT && 32 * fl + sl == Class(size)
  {
    if size < SMALL_BLOCK_SIZE {
      fl := 0;
      sl := size / (SMALL_BLOCK_SIZE / SL_INDEX_COUNT);
    } else {
      fl := Fls(size);
      LogAtLeast7(size);
      var top := Shr(size, fl - SL_INDEX_COUNT_LOG2);
      assert Pow2(5) == 32;
      XorTop(top, 5);
      sl := Xor(top, 32);
      fl := fl - (FL_INDEX_SHIFT - 1);
    }
  }

  method MappingSearch(request: Word) returns (fl: int, sl: int)
    requires request < BLOCK_SIZE_MAX
    ensures 0 <= fl && 0 <= sl < SL_INDEX_COUNT && 32 * fl + sl == Class(RoundUp(request))
  {
    var size: int := request;
    if size >= SMALL_BLOCK_SIZE {
      var k := Fls(size);
      LogAtLeast7(size);
      LogBounds(size);
      Pow2Mono(k - 5, k);
      var round := Pow2(k - SL_INDEX_COUNT_LOG2) - 1;
      size := size + round;
    }
    fl, sl := MappingInsert(size);
  }
}
