/** Which words each kind of step may touch, and what therefore stays the same: link words of free
    blocks never disturb headers or payloads, and writes inside one block never disturb the lists. */
module TlsfFrames {
  import opened Bits
  import opened TlsfMapping
  import opened TlsfHeap

  // ------------------------------------------------------------------ headers read back

  lemma ReadHeader(m: seq<Word>, H: Blocks, ctl: int, b: int)
    requires BlocksOk(H, ctl) && Stored(m, H) && b in H
    ensures 0 < b && b + 1 < |m| && Next(H, b) < |m|
    ensures At(m, b + 1) == m[b + 1] == Header(H[b]) && H[b].n >= 0
    ensures m[b + 1] / 4 * 4 == 4 * H[b].n && (m[b + 1] % 2 == 1 <==> H[b].free)
    ensures (m[b + 1] / 2 % 2 == 1 <==> H[b].prevFree)
    ensures H[b].n > 0 ==> Next(H, b) in H && H[b].n >= 3 && H[Next(H, b)].prevFree == H[b].free
    ensures H[b].n == 0 ==> !H[b].free
    ensures H[b].n < 0x1000_0000
    ensures H[b].prevFree ==> At(m, b) in H && H[At(m, b)].free && Next(H, At(m, b)) == b
  {
    assert BlockOk(H, ctl, b) && StoredAt(m, H, b);
  }

  // ------------------------------------------------------------------ link words

  /** Word `i` belongs to block_null or is a link word of a free block. */
  ghost predicate LinkWord(H: Blocks, ctl: int, i: int) {
    ctl <= i < ctl + 4 || exists f :: f in H && H[f].free && (i == f + 2 || i == f + 3)
  }

  /** Rewriting link words leaves headers and used payloads alone. */
  lemma LinkWordsFrame(m: seq<Word>, H: Blocks, ctl: int, m': seq<Word>, S: set<int>)
    requires BlocksOk(H, ctl) && Stored(m, H) && ChangesOnly(m, m', S)
    requires forall i :: i in S ==> LinkWord(H, ctl, i)
    ensures Stored(m', H) && SameAllocs(m, H, m', H, {})
  {
    forall q | q in H ensures StoredAt(m', H, q) {
      assert StoredAt(m, H, q);
      HeaderIsNoLink(H, ctl, q);
      if H[q].prevFree { assert BlockOk(H, ctl, At(m, q)); BackLinkIsNoLink(H, ctl, q, At(m, q)); }
    }
    forall u | u in H && H[u].Used() ensures SamePayload(m, H, m', u) {
      forall i | u + 2 <= i <= Next(H, u) ensures At(m', i) == At(m, i) { PayloadIsNoLink(H, ctl, u, i); }
    }
  }

  lemma HeaderIsNoLink(H: Blocks, ctl: int, q: int)
    requires BlocksOk(H, ctl) && q in H
    ensures !LinkWord(H, ctl, q + 1)
  {
    assert BlockOk(H, ctl, q);
    forall f | f in H && H[f].free ensures q + 1 != f + 2 && q + 1 != f + 3 { assert BlockOk(H, ctl, f); }
  }

  lemma BackLinkIsNoLink(H: Blocks, ctl: int, q: int, p: int)
    requires BlocksOk(H, ctl) && q in H && p in H && H[p].free && Next(H, p) == q
    ensures !LinkWord(H, ctl, q)
  {
    assert BlockOk(H, ctl, p) && BlockOk(H, ctl, q);
    forall f | f in H && H[f].free ensures q != f + 2 && q != f + 3 { assert BlockOk(H, ctl, f); }
  }

  lemma PayloadIsNoLink(H: Blocks, ctl: int, u: int, i: int)
    requires BlocksOk(H, ctl) && u in H && H[u].Used() && u + 2 <= i <= Next(H, u)
    ensures !LinkWord(H, ctl, i)
  {
    assert BlockOk(H, ctl, u);
    forall f | f in H && H[f].free ensures i != f + 2 && i != f + 3 { assert BlockOk(H, ctl, f); }
  }

  // ------------------------------------------------------------------ writes inside one block

  /** Writes from the header of `b` up to the header of its successor leave the lists alone. */
  lemma InsideFrame(m: seq<Word>, H: Blocks, ctl: int, m': seq<Word>, heads: seq<int>, F: Members, D: set<int>, b: int)
    requires BlocksOk(H, ctl) && FreeOk(H, F, D) && Lists(m, heads, F, ctl) && |m| == |m'|
    requires b in H && b !in F && H[b].n > 0
    requires forall i :: At(m', i) != At(m, i) ==> b + 1 <= i <= Next(H, b) + 1
    ensures Lists(m', heads, F, ctl)
  {
    assert BlockOk(H, ctl, b);
    forall q | q in F ensures At(m', q + 2) == At(m, q + 2) && At(m', q + 3) == At(m, q + 3) {
      assert BlockOk(H, ctl, q);
    }
    ListsFrame(m, m', heads, F, ctl);
  }

  // ------------------------------------------------------------------ bitmaps

  /** Second-level word `f` marks the non-empty lists of row `f`; the first level marks the non-zero words. */
  ghost predicate RowOk(fl: int, sl: seq<Word>, heads: seq<int>, nil: int, f: int)
    requires 0 <= f < |sl| && |heads| == CLASSES && |sl| == FL_INDEX_COUNT
  {
    && 0 <= fl && (Bit(fl, f) <==> sl[f] != 0)
    && forall s: nat :: s < SL_INDEX_COUNT ==> (Bit(sl[f], s) <==> heads[32 * f + s] != nil)
  }

  ghost predicate Bitmaps(fl: int, sl: seq<Word>, heads: seq<int>, nil: int) {
    && |sl| == FL_INDEX_COUNT && |heads| == CLASSES && 0 <= fl < Pow2(24)
    && forall f :: 0 <= f < FL_INDEX_COUNT ==> RowOk(fl, sl, heads, nil, f)
  }

  /** Marking list (f, s) non-empty. */
  lemma BitmapsSet(fl: nat, sl: seq<Word>, heads: seq<int>, nil: int, f: nat, s: nat, b: int, w: Word)
    requires Bitmaps(fl, sl, heads, nil) && f < FL_INDEX_COUNT && s < SL_INDEX_COUNT && b != nil
    requires w == Or(sl[f], Pow2(s))
    ensures Bitmaps(Or(fl, Pow2(f)), sl[f := w], heads[32 * f + s := b], nil)
  {
    SetBit(fl, f);
    SetBit(sl[f], s);
    Pow2Mono(f, 24);
    OrBound(fl, Pow2(f), 24);
    var fl', sl', heads' := Or(fl, Pow2(f)), sl[f := w], heads[32 * f + s := b];
    forall g | 0 <= g < FL_INDEX_COUNT ensures RowOk(fl', sl', heads', nil, g) {
      assert RowOk(fl, sl, heads, nil, g);
    }
  }

  /** Replacing a head that stays non-empty. */
  lemma BitmapsMove(fl: nat, sl: seq<Word>, heads: seq<int>, nil: int, c: nat, b: int)
    requires Bitmaps(fl, sl, heads, nil) && c < CLASSES && b != nil && heads[c] != nil
    ensures Bitmaps(fl, sl, heads[c := b], nil)
  {
    var heads' := heads[c := b];
    forall g | 0 <= g < FL_INDEX_COUNT ensures RowOk(fl, sl, heads', nil, g) {
      assert RowOk(fl, sl, heads, nil, g);
    }
  }

  /** Marking list (f, s) empty, and its row too when that was its last list. */
  lemma BitmapsClear(fl: nat, sl: seq<Word>, heads: seq<int>, nil: int, f: nat, s: nat, w: Word, fl': nat)
    requires Bitmaps(fl, sl, heads, nil) && f < FL_INDEX_COUNT && s < SL_INDEX_COUNT
    requires Pow2(s) < Pow2(32) && Pow2(f) < Pow2(32)
    requires w == And(sl[f], Not(Pow2(s), 32)) && fl' == if w == 0 then And(fl, Not(Pow2(f), 32)) else fl
    ensures Bitmaps(fl', sl[f := w], heads[32 * f + s := nil], nil)
  {
    Pow2Consts();
    ClearBit(sl[f], s, 32);
    ClearBit(fl, f, 32);
    AndBound(fl, Not(Pow2(f), 32));
    var sl', heads' := sl[f := w], heads[32 * f + s := nil];
    if w != 0 { ClearKeepsRow(fl, sl, heads, nil, f, s, w); }
    forall g | 0 <= g < FL_INDEX_COUNT ensures RowOk(fl', sl', heads', nil, g) {
      assert RowOk(fl, sl, heads, nil, g);
    }
  }

  lemma ClearKeepsRow(fl: nat, sl: seq<Word>, heads: seq<int>, nil: int, f: nat, s: nat, w: nat)
    requires Bitmaps(fl, sl, heads, nil) && f < FL_INDEX_COUNT && w != 0
    requires forall i: nat :: Bit(w, i) <==> i != s && Bit(sl[f], i)
    ensures sl[f] != 0
  {
    var i := SomeBit(w);
    BitZero(i);
    assert Bit(sl[f], i);
  }

  /** `w & (~0 << k)` is zero, or its lowest digit is the first digit of `w` at or above k. */
  lemma LeastFrom(w: Word, k: nat, mask: nat)
    requires k <= 32 && mask == 0x1_0000_0000 - Pow2(k)
    ensures And(w, mask) <= w
    ensures And(w, mask) == 0 ==> forall i: nat :: k <= i ==> !Bit(w, i)
    ensures And(w, mask) != 0 ==> k <= Low(And(w, mask)) < 32 && Bit(w, Low(And(w, mask)))
    ensures And(w, mask) != 0 ==> forall i: nat :: k <= i < Low(And(w, mask)) ==> !Bit(w, i)
  {
    Pow2Consts();
    MaskFrom(w, k, 32, mask);
    AndBound(w, mask);
    if And(w, mask) == 0 {
      forall i: nat | k <= i ensures !Bit(w, i) { BitZero(i); }
    } else {
      LowIsLeast(And(w, mask));
      if Low(And(w, mask)) >= 32 { BitHigh(w, 32, Low(And(w, mask))); }
    }
  }

  /** Every list from `c` up to but not including `d` is empty. */
  ghost predicate Least(heads: seq<int>, nil: int, c: int, d: int) {
    0 <= c <= d <= |heads| && forall k :: c <= k < d ==> heads[k] == nil
  }

  /** What the digits of a second-level word say about its row. */
  lemma RowDigits(fl: int, sl: seq<Word>, heads: seq<int>, nil: int, f: nat, s: nat, e: nat)
    requires Bitmaps(fl, sl, heads, nil) && f < FL_INDEX_COUNT && s <= e <= SL_INDEX_COUNT
    requires forall i: nat :: s <= i < e ==> !Bit(sl[f], i)
    ensures Least(heads, nil, 32 * f + s, 32 * f + e)
  {
    assert RowOk(fl, sl, heads, nil, f);
    forall c | 32 * f + s <= c < 32 * f + e ensures heads[c] == nil { assert !Bit(sl[f], c - 32 * f); }
  }

  lemma LeastInRowFrom(fl: int, sl: seq<Word>, heads: seq<int>, nil: int, f: nat, s: nat, mask: nat)
    requires Bitmaps(fl, sl, heads, nil) && f < FL_INDEX_COUNT && s < SL_INDEX_COUNT
    requires mask == 0x1_0000_0000 - Pow2(s)
    ensures var r := And(sl[f], mask);
            && r <= sl[f]
            && (r == 0 ==> Least(heads, nil, 32 * f + s, 32 * f + 32))
            && (r != 0 ==>
                  Low(r) < 32 && heads[32 * f + Low(r)] != nil && Least(heads, nil, 32 * f + s, 32 * f + Low(r)))
  {
    LeastFrom(sl[f], s, mask);
    var r := And(sl[f], mask);
    assert RowOk(fl, sl, heads, nil, f);
    RowDigits(fl, sl, heads, nil, f, s, if r == 0 then 32 else Low(r));
  }

  lemma WholeRow(fl: int, sl: seq<Word>, heads: seq<int>, nil: int, f: nat)
    requires Bitmaps(fl, sl, heads, nil) && f < FL_INDEX_COUNT && Bit(fl, f)
    ensures sl[f] != 0 && Low(sl[f]) < 32 && heads[32 * f + Low(sl[f])] != nil
    ensures Least(heads, nil, 32 * f, 32 * f + Low(sl[f]))
  {
    assert RowOk(fl, sl, heads, nil, f);
    LeastInRow(sl[f]);
    forall c | 32 * f <= c < 32 * f + Low(sl[f]) ensures heads[c] == nil { assert !Bit(sl[f], c - 32 * f); }
  }

  lemma LeastRow(fl: nat, sl: seq<Word>, heads: seq<int>, nil: int, f: nat, mask: nat)
    requires Bitmaps(fl, sl, heads, nil) && f < FL_INDEX_COUNT
    requires mask == 0x1_0000_0000 - Pow2(f + 1)
    ensures var r := And(fl, mask);
            && r <= fl
            && (r == 0 ==> Least(heads, nil, 32 * f + 32, CLASSES))
            && (r != 0 ==>
                  f < Low(r) < FL_INDEX_COUNT && Bit(fl, Low(r)) && Least(heads, nil, 32 * f + 32, 32 * Low(r)))
  {
    Pow2Consts();
    Pow2Mono(24, 32);
    LeastFrom(fl, f + 1, mask);
    var r := And(fl, mask);
    if r != 0 && Low(r) >= 24 { BitHigh(fl, 24, Low(r)); }
    var e := if r == 0 then FL_INDEX_COUNT else Low(r);
    forall c | 32 * f + 32 <= c < 32 * e ensures heads[c] == nil { EmptyRow(fl, sl, heads, nil, c / 32); }
  }

  /** A zero second-level word means that the whole row of lists is empty. */
  lemma EmptyRow(fl: int, sl: seq<Word>, heads: seq<int>, nil: int, f: nat)
    requires Bitmaps(fl, sl, heads, nil) && f < FL_INDEX_COUNT && !Bit(fl, f)
    ensures forall c :: 32 * f <= c < 32 * f + 32 ==> heads[c] == nil
  {
    assert RowOk(fl, sl, heads, nil, f);
    forall c | 32 * f <= c < 32 * f + 32 ensures heads[c] == nil {
      BitZero(c - 32 * f);
    }
  }

  lemma LeastInRow(w: Word)
    requires w != 0
    ensures Low(w) < 32 && Bit(w, Low(w)) && forall i: nat :: i < Low(w) ==> !Bit(w, i)
  {
    Pow2Consts();
    LowIsLeast(w);
    if Low(w) >= 32 { BitHigh(w, 32, Low(w)); }
  }

  lemma EmptyBitmaps(sl: seq<Word>, heads: seq<int>, nil: int)
    requires |sl| == FL_INDEX_COUNT && |heads| == CLASSES
    requires forall f :: 0 <= f < FL_INDEX_COUNT ==> sl[f] == 0
    requires forall c :: 0 <= c < CLASSES ==> heads[c] == nil
    ensures Bitmaps(0, sl, heads, nil)
  {
    forall f | 0 <= f < FL_INDEX_COUNT ensures RowOk(0, sl, heads, nil, f) {
      BitZero(f);
      forall s: nat | s < SL_INDEX_COUNT ensures Bit(sl[f], s) <==> heads[32 * f + s] != nil { BitZero(s); }
    }
  }

  /** Testing one digit with a mask. */
  lemma TestBit(w: nat, k: nat)
    ensures And(w, Pow2(k)) != 0 <==> Bit(w, k)
  {
    BitAnd(w, Pow2(k), k);
    BitPow2(k, k);
    BitZero(k);
    if And(w, Pow2(k)) != 0 {
      var i := SomeBit(And(w, Pow2(k)));
      BitAnd(w, Pow2(k), i);
      BitPow2(k, i);
    }
  }

  /** The two levels of bitmaps agree about list (f, s). */
  lemma BitsOfList(fl: nat, sl: seq<Word>, heads: seq<int>, nil: int, f: nat, s: nat)
    requires Bitmaps(fl, sl, heads, nil) && f < FL_INDEX_COUNT && s < SL_INDEX_COUNT
    ensures And(sl[f], Pow2(s)) != 0 <==> heads[32 * f + s] != nil
    ensures And(sl[f], Pow2(s)) != 0 ==> sl[f] != 0 && And(fl, Pow2(f)) != 0
  {
    assert RowOk(fl, sl, heads, nil, f);
    TestBit(sl[f], s);
    TestBit(fl, f);
    BitZero(s);
  }
}
