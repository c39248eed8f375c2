/** Updating one entry of the file allocation table, byte by byte. */
module FatTable {
  import opened Bits
  import opened FatDisk

  /** The bytes of an entry are inside the table. */
  lemma EntryInside(g: Geometry, n: nat, c: nat)
    requires GeometryOk(g, n) && c < g.nFatent
    ensures g.fsType == Fat12 ==> Offset12(c) + 1 < SS * g.fsize
    ensures g.fsType == Fat16 ==> 2 * c + 1 < SS * g.fsize
    ensures g.fsType == Fat32 ==> 4 * c + 3 < SS * g.fsize
  {}

  /** The disc after the bytes `x`, all in one sector, are written from byte `i` of the table on. */
  function PutBytes(g: Geometry, d: Disc, i: nat, x: seq<Byte>): (r: Disc)
    requires GeometryOk(g, |d|) && i + |x| <= SS * g.fsize && i % SS + |x| <= SS && |x| > 0
    ensures |r| == |d|
  {
    var s := g.fatbase + i / SS;
    Store(g, d, s, Patch(d[s], i % SS, x))
  }

  /** `r` holds the table of `d` with the bytes from `i` on replaced by `x`. */
  ghost predicate Replaced(g: Geometry, d: Disc, r: Disc, i: nat, x: seq<Byte>) {
    forall j :: 0 <= j < SS * g.fsize ==>
      FatByte(g, r, j) == if i <= j < i + |x| then x[j - i] else FatByte(g, d, j)
  }

  lemma PutBytesReplaces(g: Geometry, d: Disc, i: nat, x: seq<Byte>)
    requires GeometryOk(g, |d|) && i + |x| <= SS * g.fsize && i % SS + |x| <= SS && |x| > 0
    ensures Replaced(g, d, PutBytes(g, d, i, x), i, x)
  {
    forall j | 0 <= j < SS * g.fsize
      ensures FatByte(g, PutBytes(g, d, i, x), j) == if i <= j < i + |x| then x[j - i] else FatByte(g, d, j)
    {
      PatchedByte(g, d, i, x, j);
    }
  }

  lemma PutBytesBeside(g: Geometry, d: Disc, i: nat, x: seq<Byte>)
    requires GeometryOk(g, |d|) && i + |x| <= SS * g.fsize && i % SS + |x| <= SS && |x| > 0
    ensures SameBeside(g, PutBytes(g, d, i, x), d)
    ensures Mirrored(g, d) ==> Mirrored(g, PutBytes(g, d, i, x))
  {
    var s := g.fatbase + i / SS;
    if Mirrored(g, d) { StoreMirrored(g, d, s, Patch(d[s], i % SS, x)); }
  }

  /** A table that agrees with that of `d` on all entries but one. */
  lemma OneEntry(g: Geometry, d: Disc, r: Disc, c: nat, v: nat)
    requires c < g.nFatent
    requires forall e :: 0 <= e < g.nFatent ==> Entry(g, r, e) == if e == c then v else Entry(g, d, e)
    ensures Table(g, r) == Table(g, d)[c := v]
  {
    assert |Table(g, r)| == |Table(g, d)|;
    forall e | 0 <= e < g.nFatent ensures Table(g, r)[e] == Table(g, d)[c := v][e] {
      assert Entry(g, r, e) == if e == c then v else Entry(g, d, e);
    }
  }

  // ---------------------------------------------------------------- FAT16

  lemma Bytes16(v: Word)
    ensures Word16(v % 256, v / 256 % 256) == v % 0x1_0000
  {}

  lemma Put16At(g: Geometry, d: Disc, r: Disc, c: nat, v: Word, e: nat)
    requires g.fsType == Fat16 && 2 * e + 1 < SS * g.fsize
    requires Replaced(g, d, r, 2 * c, [v % 256, v / 256 % 256])
    ensures Entry(g, r, e) == if e == c then v % 0x1_0000 else Entry(g, d, e)
  {
    Bytes16(v);
    assert FatByte(g, r, 2 * e) == if e == c then v % 256 else FatByte(g, d, 2 * e);
    assert FatByte(g, r, 2 * e + 1) == if e == c then v / 256 % 256 else FatByte(g, d, 2 * e + 1);
  }

  lemma Put16(g: Geometry, d: Disc, r: Disc, c: nat, v: Word)
    requires GeometryOk(g, |d|) && g.fsType == Fat16 && c < g.nFatent
    requires Replaced(g, d, r, 2 * c, [v % 256, v / 256 % 256])
    ensures Table(g, r) == Table(g, d)[c := v % 0x1_0000]
  {
    forall e | 0 <= e < g.nFatent ensures Entry(g, r, e) == if e == c then v % 0x1_0000 else Entry(g, d, e) {
      EntryInside(g, |d|, e);
      Put16At(g, d, r, c, v, e);
    }
    OneEntry(g, d, r, c, v % 0x1_0000);
  }

  // ---------------------------------------------------------------- FAT32

  function Bytes32(v: Word): (x: seq<Byte>)
    ensures |x| == 4
  {
    [v % 256, v / 256 % 256, v / 0x1_0000 % 256, v / 0x100_0000]
  }

  /** The four bytes of a word, low byte first. */
  lemma Bytes32Number(v: Word)
    ensures Number(Bytes32(v)) == v
  {
    var x := Bytes32(v);
    LoadStored32(v);
    LittleEndian(x[0], x[1], x[2], x[3]);
    assert x == [x[0], x[1], x[2], x[3]];
  }

  lemma LoadStored32(v: Word)
    ensures var x := Bytes32(v); Word32(x[0], x[1], x[2], x[3]) == v
  {
    var h := v / 256;
    var k := h / 256;
    assert v / 0x1_0000 == k && v / 0x100_0000 == k / 256;
  }

  /** The new low 28 bits under the reserved upper 4 of the old entry. */
  function Keep4(old32: Word, v: Word): (r: Word)
  {
    old32 / 0x1000_0000 * 0x1000_0000 + v % 0x1000_0000
  }

  lemma Keep4Halves(old32: Word, v: Word)
    ensures Keep4(old32, v) % 0x1000_0000 == v % 0x1000_0000
    ensures Keep4(old32, v) / 0x1000_0000 == old32 / 0x1000_0000
  {
    var h, l := old32 / 0x1000_0000, v % 0x1000_0000;
    assert (h * 0x1000_0000 + l) / 0x1000_0000 == h;
  }

  /** `(v & 0x0FFFFFFF) | (old & 0xF0000000)`. */
  lemma MaskedKeep4(old32: Word, v: Word)
    ensures Or(And(v, 0x0FFF_FFFF), And(old32, 0xF000_0000)) == Keep4(old32, v)
  {
    Pow2Consts();
    LowBits(v, 28, 0x1000_0000);
    HighBits(old32, 28, 0x1000_0000, 32, 0xF000_0000);
    Merge28(old32 / 0x1000_0000, v % 0x1000_0000);
  }

  lemma Merge28(high: nat, low: nat)
    requires low < 0x1000_0000
    ensures Or(low, high * 0x1000_0000) == high * 0x1000_0000 + low
  {
    Pow2Consts();
    OrApart(high, low, 28);
  }

  /** `y & (2^k - 1)`. */
  lemma LowBits(y: nat, k: nat, p: nat)
    requires p == Pow2(k)
    ensures And(y, p - 1) == y % p
  {
    AndRem(y, k); QuotRem(y, p);
  }

  /** `y & ~(2^k - 1)`. */
  lemma HighBits(y: nat, k: nat, p: nat, width: nat, mask: nat)
    requires p == Pow2(k) && k <= width && y < Pow2(width) && mask == Pow2(width) - p
    ensures And(y, mask) == y / p * p
  {
    AndHigh(y, k, width, mask);
    DownIs(y, k);
  }

  /** Clearing the low digits, by division. */
  lemma {:induction false} DownIs(y: nat, k: nat)
    ensures Down(y, k) == y / Pow2(k) * Pow2(k)
  {
    DownAligned(y, k);
    AlignedShr(Down(y, k), k);
    var q := Shr(Down(y, k), k);
    MultipleUnique(y, Pow2(k), q, y - Down(y, k));
  }

  lemma Put32At(g: Geometry, d: Disc, r: Disc, c: nat, x: seq<Byte>, e: nat)
    requires 4 * e + 3 < SS * g.fsize && |x| == 4
    requires Replaced(g, d, r, 4 * c, x)
    ensures Raw32(g, r, e) == if e == c then Word32(x[0], x[1], x[2], x[3]) else Raw32(g, d, e)
  {
    assert FatByte(g, r, 4 * e) == if e == c then x[0] else FatByte(g, d, 4 * e);
    assert FatByte(g, r, 4 * e + 1) == if e == c then x[1] else FatByte(g, d, 4 * e + 1);
    assert FatByte(g, r, 4 * e + 2) == if e == c then x[2] else FatByte(g, d, 4 * e + 2);
    assert FatByte(g, r, 4 * e + 3) == if e == c then x[3] else FatByte(g, d, 4 * e + 3);
  }

  /** Every entry but `c` keeps all 32 bits, and `c` holds `v`. */
  ghost predicate RawReplaced(g: Geometry, d: Disc, r: Disc, c: nat, v: Word) {
    forall e :: 0 <= e < g.nFatent ==> Raw32(g, r, e) == if e == c then v else Raw32(g, d, e)
  }

  lemma Put32(g: Geometry, d: Disc, r: Disc, c: nat, v: Word)
    requires GeometryOk(g, |d|) && g.fsType == Fat32 && c < g.nFatent
    requires Replaced(g, d, r, 4 * c, Bytes32(v))
    ensures Table(g, r) == Table(g, d)[c := v % 0x1000_0000]
    ensures RawReplaced(g, d, r, c, v)
  {
    LoadStored32(v);
    forall e | 0 <= e < g.nFatent ensures Raw32(g, r, e) == if e == c then v else Raw32(g, d, e) {
      EntryInside(g, |d|, e);
      Put32At(g, d, r, c, Bytes32(v), e);
    }
    forall e | 0 <= e < g.nFatent ensures Entry(g, r, e) == if e == c then v % 0x1000_0000 else Entry(g, d, e) {
      assert Raw32(g, r, e) == if e == c then v else Raw32(g, d, e);
    }
    OneEntry(g, d, r, c, v % 0x1000_0000);
  }

  // ---------------------------------------------------------------- FAT12

  /** First and second byte of an odd or even entry holding `v`, over what the byte held before. */
  function First12(odd: bool, was: Byte, v: Word): (b: Byte) {
    if odd then was % 16 + v % 16 * 16 else v % 256
  }

  function Second12(odd: bool, was: Byte, v: Word): (b: Byte) {
    if odd then v / 16 % 256 else was / 16 * 16 + v / 256 % 16
  }

  /** Offset of the first byte of entry `c`. */
  function Offset12(c: nat): (i: nat) {
    c + c / 2
  }

  /** What the two one-byte writes for entry `c` leave at byte `j`. */
  function Byte12(c: nat, v: Word, j: nat, was: Byte): (b: Byte) {
    if j == Offset12(c) then First12(c % 2 == 1, was, v)
    else if j == Offset12(c) + 1 then Second12(c % 2 == 1, was, v)
    else was
  }

  function Value12(odd: bool, b0: Byte, b1: Byte): (v: nat) {
    if odd then Word16(b0, b1) / 16 else Word16(b0, b1) % 0x1000
  }

  lemma OddWritten(f0: Byte, f1: Byte, v: Word)
    ensures Value12(true, First12(true, f0, v), Second12(true, f1, v)) == v % 0x1000
  {
    var q := v / 16;
    assert v % 0x1000 == v % 16 + 16 * (q % 256);
    assert f0 % 16 + 16 * (v % 16) + 256 * (q % 256) == f0 % 16 + 16 * (v % 0x1000);
  }

  lemma EvenWritten(f0: Byte, f1: Byte, v: Word)
    ensures Value12(false, First12(false, f0, v), Second12(false, f1, v)) == v % 0x1000
  {
    var q := v / 256;
    var a := v % 256 + 256 * (q % 16);
    Modulo12(a, q / 16);
    Modulo12(a, f1 / 16);
    assert q == q % 16 + 16 * (q / 16) && v == v % 256 + 256 * q;
  }

  /** Writing an odd entry leaves the even one before it, and the other way round. */
  lemma EvenKept(f0: Byte, f1: Byte, v: Word)
    ensures Value12(false, f0, First12(true, f1, v)) == Value12(false, f0, f1)
  {
    Modulo12(f0 + 256 * (f1 % 16), v % 16);
    Modulo12(f0 + 256 * (f1 % 16), f1 / 16);
    assert f1 == f1 % 16 + 16 * (f1 / 16);
  }

  lemma Modulo12(a: nat, k: nat)
    requires a < 0x1000
    ensures (a + 0x1000 * k) % 0x1000 == a
  {}

  lemma OddKept(f0: Byte, f1: Byte, v: Word)
    ensures Value12(true, Second12(false, f0, v), f1) == Value12(true, f0, f1)
  {
    var h := f0 / 16 + 16 * f1;
    assert f0 + 256 * f1 == 16 * h + f0 % 16;
    assert Second12(false, f0, v) + 256 * f1 == 16 * h + v / 256 % 16;
  }

  /** The nibbles of entry `e` are those of `c` or untouched. */
  lemma Nibbles(c: nat, e: nat, f0: Byte, f1: Byte, v: Word)
    ensures Value12(e % 2 == 1, Byte12(c, v, Offset12(e), f0), Byte12(c, v, Offset12(e) + 1, f1))
         == if e == c then v % 0x1000 else Value12(e % 2 == 1, f0, f1)
  {
    var h, k := c / 2, e / 2;
    assert Offset12(c) == 3 * h + c % 2 && Offset12(e) == 3 * k + e % 2;
    if e == c {
      if c % 2 == 1 { OddWritten(f0, f1, v); } else { EvenWritten(f0, f1, v); }
    } else if h == k {
      if c % 2 == 1 { EvenKept(f0, f1, v); } else { OddKept(f0, f1, v); }
    } else {
      assert Byte12(c, v, Offset12(e), f0) == f0 && Byte12(c, v, Offset12(e) + 1, f1) == f1;
    }
  }

  /** `r` comes from `d` by the two one-byte writes, through `m`. */
  lemma Put12At(g: Geometry, d: Disc, m: Disc, r: Disc, c: nat, v: Word, e: nat)
    requires g.fsType == Fat12
    requires Offset12(c) + 1 < SS * g.fsize && Offset12(e) + 1 < SS * g.fsize
    requires Replaced(g, d, m, Offset12(c), [First12(c % 2 == 1, FatByte(g, d, Offset12(c)), v)])
    requires Replaced(g, m, r, Offset12(c) + 1, [Second12(c % 2 == 1, FatByte(g, m, Offset12(c) + 1), v)])
    ensures Entry(g, r, e) == if e == c then v % 0x1000 else Entry(g, d, e)
  {
    var i, j := Offset12(c), Offset12(e);
    TwoWrites(g, d, m, r, c, v, j);
    TwoWrites(g, d, m, r, c, v, j + 1);
    Nibbles(c, e, FatByte(g, d, j), FatByte(g, d, j + 1), v);
    Value12Entry(g, d, e);
    Value12Entry(g, r, e);
  }

  lemma Value12Entry(g: Geometry, d: Disc, e: nat)
    requires g.fsType == Fat12
    ensures Entry(g, d, e) == Value12(e % 2 == 1, FatByte(g, d, Offset12(e)), FatByte(g, d, Offset12(e) + 1))
  {}

  lemma TwoWrites(g: Geometry, d: Disc, m: Disc, r: Disc, c: nat, v: Word, j: nat)
    requires Offset12(c) + 1 < SS * g.fsize && j < SS * g.fsize
    requires Replaced(g, d, m, Offset12(c), [First12(c % 2 == 1, FatByte(g, d, Offset12(c)), v)])
    requires Replaced(g, m, r, Offset12(c) + 1, [Second12(c % 2 == 1, FatByte(g, m, Offset12(c) + 1), v)])
    ensures FatByte(g, r, j) == Byte12(c, v, j, FatByte(g, d, j))
  {
    var i := Offset12(c);
    assert FatByte(g, m, i + 1) == FatByte(g, d, i + 1);
    assert FatByte(g, m, j) == if j == i then First12(c % 2 == 1, FatByte(g, d, i), v) else FatByte(g, d, j);
  }

  lemma Put12(g: Geometry, d: Disc, m: Disc, r: Disc, c: nat, v: Word)
    requires GeometryOk(g, |d|) && g.fsType == Fat12 && c < g.nFatent
    requires Replaced(g, d, m, Offset12(c), [First12(c % 2 == 1, FatByte(g, d, Offset12(c)), v)])
    requires Replaced(g, m, r, Offset12(c) + 1, [Second12(c % 2 == 1, FatByte(g, m, Offset12(c) + 1), v)])
    ensures Table(g, r) == Table(g, d)[c := v % 0x1000]
  {
    EntryInside(g, |d|, c);
    forall e | 0 <= e < g.nFatent ensures Entry(g, r, e) == if e == c then v % 0x1000 else Entry(g, d, e) {
      EntryInside(g, |d|, e);
      Put12At(g, d, m, r, c, v, e);
    }
    OneEntry(g, d, r, c, v % 0x1000);
  }

  /** The masks of the two updates: `*p & 0x0F | (BYTE)val << 4` and `*p & 0xF0 | val >> 8 & 0x0F`. */
  lemma MaskFirst12(was: Byte, v: Word)
    ensures Or(And(was, 0x0F), v % 256 * 16 % 256) == First12(true, was, v)
  {
    Pow2Consts();
    LowBits(was, 4, 16);
    NibbleShift(v);
    OrApart(v % 16, was % 16, 4);
  }

  lemma NibbleShift(v: Word)
    ensures v % 256 * 16 % 256 == v % 16 * 16
  {
    var b := v % 256;
    assert b % 16 == v % 16 by { LowNibble(v); }
    assert b * 16 == 256 * (b / 16) + b % 16 * 16;
  }

  lemma MaskSecond12(was: Byte, v: Word)
    ensures Or(And(was, 0xF0), And(v / 256 % 256, 0x0F)) == Second12(false, was, v)
  {
    Pow2Consts();
    var h := v / 256;
    LowBits(h % 256, 4, 16);
    LowNibble(h);
    HighBits(was, 4, 16, 8, 0xF0);
    MergeNibbles(was / 16, h % 16);
  }

  lemma LowNibble(h: nat)
    ensures h % 256 % 16 == h % 16
  {
    var q := h / 256;
    assert h == 16 * (16 * q + h % 256 / 16) + h % 256 % 16;
  }

  lemma MergeNibbles(high: nat, low: nat)
    requires low < 16
    ensures Or(high * 16, low) == high * 16 + low
  {
    assert Pow2(4) == 16;
    OrApart(high, low, 4);
  }

  /** `wc >> 4` and `wc & 0xFFF` on the 16 bits read for an entry. */
  lemma Reads12(lo: Byte, hi: Byte)
    ensures Or(lo, Shl(hi, 8)) == Word16(lo, hi)
    ensures Shr(Word16(lo, hi), 4) == Word16(lo, hi) / 16
    ensures And(Word16(lo, hi), 0xFFF) == Word16(lo, hi) % 0x1000
  {
    Pow2Consts();
    Pow2Add(8, 4);
    OrApart(hi, lo, 8);
    ShrFour(Word16(lo, hi));
    LowBits(Word16(lo, hi), 12, 0x1000);
  }

  lemma ShrFour(w: nat)
    ensures Shr(w, 4) == w / 16
  {
    assert Shr(w, 4) == Shr(w / 2, 3) == Shr(w / 2 / 2, 2) == Shr(w / 2 / 2 / 2, 1) == w / 2 / 2 / 2 / 2;
  }
}
