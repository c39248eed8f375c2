/** NOR flash and the write-back buffer in front of it, on values (system/spi_flashdev.c). */
module FlashSteps {
  import opened Bits

  const SECTOR := 4096         // erase unit
  const PAGE := 256            // program unit
  const CHIP := 0x100_0000     // 24-bit addresses
  const MAX_FLASH_FDS := 4

  /** `s` with the bytes from `at` on replaced by `x`. */
  function Overwrite(s: seq<Byte>, at: nat, x: seq<Byte>): (r: seq<Byte>)
    requires at + |x| <= |s|
    ensures |r| == |s|
  {
    s[..at] + x + s[at + |x|..]
  }

  lemma OverwriteAt(s: seq<Byte>, at: nat, x: seq<Byte>, k: nat)
    requires at + |x| <= |s| && k < |s|
    ensures Overwrite(s, at, x)[k] == if at <= k < at + |x| then x[k - at] else s[k]
  {}

  lemma OverwriteTwice(s: seq<Byte>, at: nat, x: seq<Byte>, y: seq<Byte>)
    requires at + |x| + |y| <= |s|
    ensures Overwrite(Overwrite(s, at, x), at + |x|, y) == Overwrite(s, at, x + y)
  {}

  lemma OverwriteNothing(s: seq<Byte>, at: nat)
    requires at <= |s|
    ensures Overwrite(s, at, []) == s
  {}

  /** Replacing part of a stretch that itself replaces part of `s`. */
  lemma OverwriteInside(s: seq<Byte>, at: nat, x: seq<Byte>, k: nat, y: seq<Byte>)
    requires at + |x| <= |s| && k + |y| <= |x|
    ensures Overwrite(s, at, Overwrite(x, k, y)) == Overwrite(Overwrite(s, at, x), at + k, y)
  {}

  lemma OverwriteSame(s: seq<Byte>, at: nat, n: nat)
    requires at + n <= |s|
    ensures Overwrite(s, at, s[at..at + n]) == s
  {}

  // ---------------------------------------------------------------- the chip

  function Erased(n: nat): (x: seq<Byte>)
    ensures |x| == n
  {
    seq(n, i => 0xFF)
  }

  /** Programming can only clear bits: each cell becomes the AND of what it held and the data. */
  function Programmed(cells: seq<Byte>, x: seq<Byte>): (r: seq<Byte>)
    requires |x| == |cells|
    ensures |r| == |x|
  {
    seq(|x|, i requires 0 <= i < |x| => AndByte(cells[i], x[i]))
  }

  function AndByte(a: Byte, b: Byte): (r: Byte) {
    AndBound(a, b);
    And(a, b)
  }

  lemma {:induction false} AndOnesLeft(b: nat, width: nat)
    requires b < Pow2(width)
    ensures And(Pow2(width) - 1, b) == b
  {
    if width > 0 {
      assert (Pow2(width) - 1) / 2 == Pow2(width - 1) - 1 && (Pow2(width) - 1) % 2 == 1;
      AndOnesLeft(b / 2, width - 1);
    }
  }

  /** On erased cells programming stores the data as it is. */
  lemma ProgramErased(x: seq<Byte>)
    ensures Programmed(Erased(|x|), x) == x
  {
    forall i | 0 <= i < |x| ensures AndByte(0xFF, x[i]) == x[i] {
      assert Pow2(8) == 256;
      AndOnesLeft(x[i], 8);
    }
  }

  /** Every digit of `b` is one of `a`. */
  ghost predicate Within(b: nat, a: nat) {
    forall i: nat :: Bit(b, i) ==> Bit(a, i)
  }

  /** Programming stores the data exactly when it sets no bit the cell has cleared. */
  lemma ProgramStores(a: Byte, b: Byte)
    ensures AndByte(a, b) == b <==> Within(b, a)
  {
    if And(a, b) == b {
      forall i: nat | Bit(b, i) ensures Bit(a, i) { BitAnd(a, b, i); }
    }
    if Within(b, a) {
      forall i: nat ensures Bit(And(a, b), i) <==> Bit(b, i) { BitAnd(a, b, i); }
      BitExt(And(a, b), b);
    }
  }

  /** Cell `k` while the sector at `off` is being rewritten with `x`: `n` bytes programmed, the rest erased. */
  function CellAt(cells: seq<Byte>, off: nat, x: seq<Byte>, n: nat, k: nat): (b: Byte)
    requires |x| == SECTOR && n <= SECTOR && k < |cells|
  {
    if off <= k < off + n then x[k - off] else if off <= k < off + SECTOR then 0xFF else cells[k]
  }

  /** `r` is what has become of `cells`. */
  ghost predicate Rewriting(r: seq<Byte>, cells: seq<Byte>, off: nat, x: seq<Byte>, n: nat) {
    |x| == SECTOR && off + SECTOR <= |cells| == |r| && n <= SECTOR
    && forall k :: 0 <= k < |r| ==> r[k] == CellAt(cells, off, x, n, k)
  }

  lemma EraseStarts(cells: seq<Byte>, off: nat, x: seq<Byte>)
    requires |x| == SECTOR && off + SECTOR <= |cells|
    ensures Rewriting(Overwrite(cells, off, Erased(SECTOR)), cells, off, x, 0)
  {}

  /** The cells with one page programmed. */
  function PageProgrammed(r: seq<Byte>, a: nat, page: seq<Byte>): (q: seq<Byte>)
    requires |page| == PAGE && a + PAGE <= |r|
    ensures |q| == |r|
  {
    Overwrite(r, a, Programmed(r[a..a + PAGE], page))
  }

  /** One page more. */
  lemma NextPage(r: seq<Byte>, cells: seq<Byte>, off: nat, x: seq<Byte>, n: nat, page: seq<Byte>)
    requires Rewriting(r, cells, off, x, n) && n + PAGE <= SECTOR && page == x[n..n + PAGE]
    ensures Rewriting(PageProgrammed(r, off + n, page), cells, off, x, n + PAGE)
  {
    assert r[off + n..off + n + PAGE] == Erased(PAGE);
    ProgramErased(page);
  }

  lemma AllPages(r: seq<Byte>, cells: seq<Byte>, off: nat, x: seq<Byte>)
    requires Rewriting(r, cells, off, x, SECTOR)
    ensures r == Overwrite(cells, off, x)
  {}

  // ---------------------------------------------------------------- open handles

  /** An entry of fd_list; descriptor 0 marks a free one. */
  datatype OpenFd = OpenFd(fd: int, fileptr: Word)

  /** The first entry with descriptor `fd`, or -1. */
  function Slot(t: seq<OpenFd>, fd: int): (i: int)
    ensures -1 <= i < |t|
    ensures i >= 0 ==> t[i].fd == fd
    ensures i < 0 ==> forall j :: 0 <= j < |t| ==> t[j].fd != fd
    ensures forall j :: 0 <= j < i ==> t[j].fd != fd
  {
    if t == [] then -1
    else if t[0].fd == fd then 0
    else var k := Slot(t[1..], fd); if k < 0 then -1 else k + 1
  }

  /** `write_blk_offset & mask`. */
  function SectorStart(p: Word): (r: Word)
    ensures r <= p < r + SECTOR
  {
    p - p % SECTOR
  }

  lemma SectorMasks(p: Word)
    ensures And(p, 0xFFFF_F000) == SectorStart(p) && And(p, 0x0000_0FFF) == p - SectorStart(p)
  {
    Pow2Consts();
    Pow2Add(8, 4);
    AndHigh(p, 12, 32, 0xFFFF_F000);
    DownAligned(p, 12);
    AlignedMod(Down(p, 12), 12);
    AndLow(p, 12);
  }

  /** The low digits and the rest make up the number. */
  lemma {:induction false} AndLow(p: nat, k: nat)
    ensures And(p, Pow2(k) - 1) == p - Down(p, k)
  {
    if k == 0 {
      AndBound(p, 0);
    } else {
      assert (Pow2(k) - 1) / 2 == Pow2(k - 1) - 1 && (Pow2(k) - 1) % 2 == 1;
      AndLow(p / 2, k - 1);
    }
  }
}
