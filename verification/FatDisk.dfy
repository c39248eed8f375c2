/** Discs, volume geometry and the file allocation table as bytes (system/ff.c, system/ff.h).

    A disc is a sequence of 512-byte sectors. `Store` is what writing one sector through the volume's
    window does in the end: a sector of the first FAT is reflected to the second FAT when there is one. */
module FatDisk {
  import opened Bits

  const SS := 512

  type Sector = s: seq<Byte> | |s| == 512 witness seq(512, i => 0)
  type Disc = seq<Sector>

  datatype FsType = Fat12 | Fat16 | Fat32

  /** The fields of a mounted volume that never change: number of FATs, sectors per cluster, sectors per
      FAT, first sector of the volume, of the FAT and of the data area, number of FAT entries. */
  datatype Geometry = Geometry(
    fsType: FsType, nFats: nat, csize: nat, fsize: nat,
    volbase: nat, fatbase: nat, database: nat, nFatent: nat)

  /** Quotient and remainder by a power-of-two cluster size, as recursions. */
  function Quot(k: nat, n: nat): (r: nat)
    requires n > 0
    ensures r <= k
  {
    if k < n then 0 else 1 + Quot(k - n, n)
  }

  function Rem(k: nat, n: nat): (r: nat)
    requires n > 0
    ensures r < n && r <= k
  {
    if k < n then k else Rem(k - n, n)
  }

  lemma {:induction false} QuotRem(k: nat, n: nat)
    requires n > 0
    ensures Quot(k, n) == k / n && Rem(k, n) == k % n
  {
    if k >= n {
      QuotRem(k - n, n);
      DivStep(k, n);
    } else {
      DivSmall(k, n);
    }
  }

  lemma DivSmall(k: nat, n: nat)
    requires k < n
    ensures k / n == 0 && k % n == k
  {}

  lemma DivStep(k: nat, n: nat)
    requires 0 < n <= k
    ensures k / n == 1 + (k - n) / n && k % n == (k - n) % n
  {
    var q := (k - n) / n;
    var r := (k - n) % n;
    assert (1 + q) * n == q * n + n;
    assert k == (1 + q) * n + r;
    MultipleUnique(k, n, 1 + q, r);
  }

  /** Within one block of `n`, moving on by `j` moves only the remainder. */
  lemma {:induction false} QuotPlus(k: nat, n: nat, j: nat)
    requires n > 0 && Rem(k, n) + j < n
    ensures Quot(k + j, n) == Quot(k, n) && Rem(k + j, n) == Rem(k, n) + j
  {
    if k >= n { QuotPlus(k - n, n, j); }
  }

  /** The successor of the last element of a block starts the next one. */
  lemma {:induction false} QuotNext(k: nat, n: nat)
    requires n > 0
    ensures Rem(k, n) + 1 < n ==> Quot(k + 1, n) == Quot(k, n) && Rem(k + 1, n) == Rem(k, n) + 1
    ensures Rem(k, n) + 1 == n ==> Quot(k + 1, n) == Quot(k, n) + 1 && Rem(k + 1, n) == 0
  {
    if k >= n { QuotNext(k - n, n); }
  }

  lemma {:induction false} QuotMono(k: nat, l: nat, n: nat)
    requires n > 0 && k <= l
    ensures Quot(k, n) <= Quot(l, n)
  {
    if l >= n && k >= n { QuotMono(k - n, l - n, n); }
  }

  lemma {:induction false} QuotRemUnique(k: nat, l: nat, n: nat)
    requires n > 0 && Quot(k, n) == Quot(l, n) && Rem(k, n) == Rem(l, n)
    ensures k == l
  {
    if k >= n { QuotRemUnique(k - n, l - n, n); }
  }

  lemma {:induction false} RemHalf(k: nat, q: nat)
    requires q > 0
    ensures Rem(k, 2 * q) == k % 2 + 2 * Rem(k / 2, q)
  {
    if k >= 2 * q {
      RemHalf(k - 2 * q, q);
      assert (k - 2 * q) / 2 == k / 2 - q && (k - 2 * q) % 2 == k % 2;
    }
  }

  /** `k & (2^p - 1)`. */
  lemma {:induction false} AndRem(k: nat, p: nat)
    ensures And(k, Pow2(p) - 1) == Rem(k, Pow2(p))
  {
    if p == 0 {
      RemOne(k);
      AndBound(k, 0);
    } else {
      var q := Pow2(p - 1);
      AndRem(k / 2, p - 1);
      RemHalf(k, q);
      assert (Pow2(p) - 1) % 2 == 1 && (Pow2(p) - 1) / 2 == q - 1;
      if k == 0 { assert Rem(0, 2 * q) == 0; }
    }
  }

  lemma {:induction false} RemOne(k: nat)
    ensures Rem(k, 1) == 0
  {
    if k > 0 { RemOne(k - 1); }
  }

  // ---------------------------------------------------------------- geometry

  function MaxEntries(t: FsType): (r: nat) {
    match t
    case Fat12 => 0xFF5 + 2
    case Fat16 => 0xFFF5 + 2
    case Fat32 => 0x0FFF_FFF5 + 2
  }

  /** Entries hold a value below this bound. */
  function Width(t: FsType): (r: nat) {
    match t
    case Fat12 => 0x1000
    case Fat16 => 0x1_0000
    case Fat32 => 0x1000_0000
  }

  /** A FAT of `f` sectors has room for `n` entries. */
  predicate Room(t: FsType, n: nat, f: nat) {
    match t
    case Fat12 => 3 * n <= 2 * 512 * f
    case Fat16 => 2 * n <= 512 * f
    case Fat32 => 4 * n <= 512 * f
  }

  /** A power of two that fits a byte: `csize != 0 && !(csize & (csize - 1))`. */
  predicate ClusterSize(n: nat) {
    0 < n <= 128 && And(n, n - 1) == 0
  }

  /** No digit is lost by `h & h`. */
  lemma {:induction false} AndSame(h: nat)
    ensures And(h, h) == h
  {
    if h != 0 { AndSame(h / 2); }
  }

  /** The test does say "power of two". */
  lemma {:induction false} PowerOf(n: nat) returns (k: nat)
    requires 0 < n && And(n, n - 1) == 0
    ensures n == Pow2(k)
  {
    if n == 1 {
      k := 0;
    } else if n % 2 == 0 {
      assert (n - 1) / 2 == n / 2 - 1;
      k := PowerOf(n / 2);
      k := k + 1;
    } else {
      assert (n - 1) / 2 == n / 2 && (n - 1) % 2 == 0;
      AndSame(n / 2);
      assert false;
    }
  }

  lemma ClusterPower(n: nat) returns (k: nat)
    requires ClusterSize(n)
    ensures n == Pow2(k) && k <= 7
  {
    k := PowerOf(n);
    assert Pow2(7) == 128;
    if k > 7 { Pow2Mono(7, k); }
  }

  /** First sector of cluster `c`. */
  function Base(g: Geometry, c: nat): (r: nat)
    ensures r >= g.database
  {
    if c <= 2 then g.database else Base(g, c - 1) + g.csize
  }

  /** The areas of the volume are in order and inside a disc of `n` sectors, and the FAT has room for
      its entries. */
  ghost predicate GeometryOk(g: Geometry, n: nat) {
    && g.volbase < g.fatbase && 1 <= g.fsize && (g.nFats == 1 || g.nFats == 2)
    && g.fatbase + g.fsize + (if g.nFats == 2 then g.fsize else 0) <= g.database
    && ClusterSize(g.csize)
    && 3 <= g.nFatent <= MaxEntries(g.fsType)
    && Room(g.fsType, g.nFatent, g.fsize)
    && Base(g, g.nFatent) <= n <= 0x1_0000_0000
  }

  lemma {:induction false} BaseMono(g: Geometry, c: nat, d: nat)
    requires 2 <= c < d
    ensures Base(g, c) + g.csize <= Base(g, d)
  {
    if c + 1 < d { BaseMono(g, c, d - 1); }
  }

  lemma {:induction false} BaseLinear(g: Geometry, c: nat)
    requires 2 <= c
    ensures Base(g, c) == g.database + g.csize * (c - 2)
  {
    if c > 2 {
      BaseLinear(g, c - 1);
      assert g.csize * (c - 2) == g.csize * (c - 3) + g.csize;
    }
  }

  /** Sector `s` belongs to cluster `c`. */
  predicate InCluster(g: Geometry, c: nat, s: nat) {
    Base(g, c) <= s < Base(g, c) + g.csize
  }

  lemma ClustersApart(g: Geometry, c: nat, d: nat, s: nat)
    requires 2 <= c && 2 <= d && InCluster(g, c, s) && InCluster(g, d, s)
    ensures c == d
  {
    if c < d { BaseMono(g, c, d); }
    if d < c { BaseMono(g, d, c); }
  }

  lemma ClusterInside(g: Geometry, n: nat, c: nat, s: nat)
    requires GeometryOk(g, n) && 2 <= c < g.nFatent && InCluster(g, c, s)
    ensures g.database <= s < n
  {
    BaseMono(g, c, g.nFatent);
  }

  // ---------------------------------------------------------------- sectors

  predicate InFat(g: Geometry, s: int) {
    g.fatbase <= s < g.fatbase + g.fsize
  }

  /** Either copy of the FAT. */
  predicate InFats(g: Geometry, s: int) {
    g.fatbase <= s < g.fatbase + g.fsize + (if g.nFats == 2 then g.fsize else 0)
  }

  ghost predicate MirrorAt(g: Geometry, d: Disc, s: nat) {
    s + g.fsize < |d| && d[s] == d[s + g.fsize]
  }

  /** The second FAT equals the first. */
  ghost predicate Mirrored(g: Geometry, d: Disc) {
    g.nFats == 2 ==> forall s :: g.fatbase <= s < g.fatbase + g.fsize ==> MirrorAt(g, d, s)
  }

  /** Sector `s` becomes `x`, and so does its mirror. */
  function Store(g: Geometry, d: Disc, s: nat, x: Sector): (r: Disc)
    requires s < |d| && (g.nFats == 2 && InFat(g, s) ==> s + g.fsize < |d|)
    ensures |r| == |d| && r[s] == x
  {
    if g.nFats == 2 && InFat(g, s) && g.fsize > 0 then d[s := x][s + g.fsize := x] else d[s := x]
  }

  lemma StoreMirrored(g: Geometry, d: Disc, s: nat, x: Sector)
    requires GeometryOk(g, |d|) && s < |d|
    requires Mirrored(g, d)
    requires g.nFats == 2 ==> !(g.fatbase + g.fsize <= s < g.fatbase + 2 * g.fsize)
    ensures Mirrored(g, Store(g, d, s, x))
  {
    if g.nFats == 2 {
      forall t | g.fatbase <= t < g.fatbase + g.fsize ensures MirrorAt(g, Store(g, d, s, x), t) {
        assert MirrorAt(g, d, t);
      }
    }
  }

  lemma StoreTwice(g: Geometry, d: Disc, s: nat, x: Sector, y: Sector)
    requires GeometryOk(g, |d|) && s < |d|
    ensures Store(g, Store(g, d, s, x), s, y) == Store(g, d, s, y)
  {}

  /** `d` and `e` agree outside both copies of the FAT. */
  ghost predicate SameBeside(g: Geometry, d: Disc, e: Disc) {
    |d| == |e| && forall s :: 0 <= s < |d| && !InFats(g, s) ==> d[s] == e[s]
  }

  // ---------------------------------------------------------------- the table as bytes and entries

  /** Byte `i` of the first FAT. */
  function FatByte(g: Geometry, d: Disc, i: nat): (b: Byte) {
    if g.fatbase + i / SS < |d| then d[g.fatbase + i / SS][i % SS] else 0
  }

  function Word16(lo: Byte, hi: Byte): (w: nat)
    ensures w < 0x1_0000
  {
    lo + 256 * hi
  }

  function Word32(b0: Byte, b1: Byte, b2: Byte, b3: Byte): (w: Word) {
    b0 + 256 * b1 + 0x1_0000 * b2 + 0x100_0000 * b3
  }

  /** Bytes as a number, the first one counting 1 and each further one 256 times the one before. */
  function Number(x: seq<Byte>): (n: nat) {
    if x == [] then 0 else x[0] + 256 * Number(x[1..])
  }

  lemma LittleEndian(b0: Byte, b1: Byte, b2: Byte, b3: Byte)
    ensures Word16(b0, b1) == Number([b0, b1]) && Word32(b0, b1, b2, b3) == Number([b0, b1, b2, b3])
  {
    NumberFrom(b1, []);
    NumberFrom(b0, [b1]);
    NumberFrom(b3, []);
    NumberFrom(b2, [b3]);
    NumberFrom(b1, [b2, b3]);
    NumberFrom(b0, [b1, b2, b3]);
  }

  lemma NumberFrom(b: Byte, x: seq<Byte>)
    ensures Number([b] + x) == b + 256 * Number(x)
  {
    assert ([b] + x)[1..] == x;
  }

  /** The 32 stored bits of entry `c` of a FAT32 table, whose upper 4 bits are reserved. */
  function Raw32(g: Geometry, d: Disc, c: nat): (v: Word) {
    Word32(FatByte(g, d, 4 * c), FatByte(g, d, 4 * c + 1), FatByte(g, d, 4 * c + 2), FatByte(g, d, 4 * c + 3))
  }

  /** Digit `k` of the table to base 16, low digit of each byte first. */
  function Nibble(g: Geometry, d: Disc, k: nat): (v: nat) {
    if k % 2 == 0 then FatByte(g, d, k / 2) % 16 else FatByte(g, d, k / 2) / 16
  }

  /** Where the digits of an entry are: three, four or eight to the base 16 in a row, low digit first, of which FAT32
      leaves the last one alone. */
  lemma EntryDigits(g: Geometry, d: Disc, c: nat)
    ensures g.fsType == Fat12 ==>
      Entry(g, d, c) == Nibble(g, d, 3 * c) + 16 * Nibble(g, d, 3 * c + 1) + 256 * Nibble(g, d, 3 * c + 2)
    ensures g.fsType == Fat16 ==> Entry(g, d, c) == FatByte(g, d, 2 * c) + 256 * FatByte(g, d, 2 * c + 1)
    ensures g.fsType == Fat32 ==>
      Entry(g, d, c) == FatByte(g, d, 4 * c) + 256 * FatByte(g, d, 4 * c + 1) + 0x1_0000 * FatByte(g, d, 4 * c + 2)
                        + 0x100_0000 * (FatByte(g, d, 4 * c + 3) % 16)
  {
    if g.fsType == Fat12 {
      Digits12(g, d, c);
    } else if g.fsType == Fat32 {
      Low28Digits(FatByte(g, d, 4 * c) + 256 * FatByte(g, d, 4 * c + 1) + 0x1_0000 * FatByte(g, d, 4 * c + 2),
                  FatByte(g, d, 4 * c + 3));
    }
  }

  lemma Low28Digits(low: nat, top: Byte)
    requires low < 0x100_0000
    ensures (low + 0x100_0000 * top) % 0x1000_0000 == low + 0x100_0000 * (top % 16)
  {}

  lemma Digits12(g: Geometry, d: Disc, c: nat)
    requires g.fsType == Fat12
    ensures Entry(g, d, c) == Nibble(g, d, 3 * c) + 16 * Nibble(g, d, 3 * c + 1) + 256 * Nibble(g, d, 3 * c + 2)
  {
    var h := c / 2;
    Places12(c);
    if c % 2 == 0 {
      EvenDigits(FatByte(g, d, 3 * h), FatByte(g, d, 3 * h + 1));
    } else {
      OddDigits(FatByte(g, d, 3 * h + 1), FatByte(g, d, 3 * h + 2));
    }
  }

  lemma Places12(c: nat)
    ensures var h := c / 2;
      if c % 2 == 0
      then c + c / 2 == 3 * h && 3 * c == 2 * (3 * h) && 3 * c + 1 == 2 * (3 * h) + 1 && 3 * c + 2 == 2 * (3 * h + 1)
      else c + c / 2 == 3 * h + 1 && 3 * c == 2 * (3 * h + 1) + 1 && 3 * c + 1 == 2 * (3 * h + 2)
           && 3 * c + 2 == 2 * (3 * h + 2) + 1
  {}

  lemma EvenDigits(lo: Byte, hi: Byte)
    ensures Word16(lo, hi) % 0x1000 == lo % 16 + 16 * (lo / 16) + 256 * (hi % 16)
  {
    MultipleUnique(Word16(lo, hi), 0x1000, hi / 16, lo + 256 * (hi % 16));
  }

  lemma OddDigits(lo: Byte, hi: Byte)
    ensures Word16(lo, hi) / 16 == lo / 16 + 16 * (hi % 16) + 256 * (hi / 16)
  {
    MultipleUnique(Word16(lo, hi), 16, lo / 16 + 16 * hi, lo % 16);
  }

  /** Entry `c` of the table: 12 bits packed three bytes to a pair, or 16, or the low 28 of 32. */
  function Entry(g: Geometry, d: Disc, c: nat): (v: nat)
    ensures v < Width(g.fsType)
  {
    match g.fsType
    case Fat12 =>
      var w := Word16(FatByte(g, d, c + c / 2), FatByte(g, d, c + c / 2 + 1));
      if c % 2 == 1 then w / 16 else w % 0x1000
    case Fat16 => Word16(FatByte(g, d, 2 * c), FatByte(g, d, 2 * c + 1))
    case Fat32 => Raw32(g, d, c) % 0x1000_0000
  }

  /** The table a disc holds. */
  function Table(g: Geometry, d: Disc): (F: seq<nat>)
    ensures |F| == g.nFatent && forall c :: 0 <= c < g.nFatent ==> F[c] == Entry(g, d, c)
  {
    seq(g.nFatent, c requires 0 <= c => Entry(g, d, c))
  }

  /** `r` is `s` with the bytes from `k` on replaced by `x`. */
  function Patch(s: Sector, k: nat, x: seq<Byte>): (r: Sector)
    requires k + |x| <= 512
  {
    s[..k] + x + s[k + |x|..]
  }

  /** Patching one FAT sector changes exactly the patched bytes of the table. */
  lemma PatchedByte(g: Geometry, d: Disc, i: nat, x: seq<Byte>, j: nat)
    requires GeometryOk(g, |d|) && i + |x| <= SS * g.fsize && i % SS + |x| <= SS && |x| > 0
    requires j < SS * g.fsize
    ensures var s := g.fatbase + i / SS;
      FatByte(g, Store(g, d, s, Patch(d[s], i % SS, x)), j)
      == if i <= j < i + |x| then x[j - i] else FatByte(g, d, j)
  {
    var s := g.fatbase + i / SS;
    if j / SS == i / SS {
      assert j - i == j % SS - i % SS;
    } else {
      assert !(i <= j < i + |x|);
      assert g.fatbase + j / SS != s + g.fsize;
    }
  }

  // ---------------------------------------------------------------- runs of sectors

  /** The bytes of `n` sectors from `s` on. */
  function Flat(d: Disc, s: nat, n: nat): (x: seq<Byte>)
    requires s + n <= |d|
    ensures |x| == SS * n
    ensures forall i :: 0 <= i < SS * n ==> x[i] == d[s + i / SS][i % SS]
  {
    seq(SS * n, i requires 0 <= i < SS * n => d[s + i / SS][i % SS])
  }

  /** `d` with `n` sectors from `s` on replaced by the bytes `x`. */
  function Written(d: Disc, s: nat, n: nat, x: seq<Byte>): (e: Disc)
    requires s + n <= |d| && |x| == SS * n
    ensures |e| == |d|
    ensures forall t :: 0 <= t < |d| ==>
      e[t] == if s <= t < s + n then x[SS * (t - s)..SS * (t - s) + SS] else d[t]
  {
    seq(|d|, t requires 0 <= t < |d| => if s <= t < s + n then x[SS * (t - s)..SS * (t - s) + SS] else d[t])
  }

  /** Discs that agree on the first FAT hold the same table. */
  lemma SameTable(g: Geometry, d: Disc, e: Disc)
    requires GeometryOk(g, |d|) && |e| == |d|
    requires forall s :: InFat(g, s) ==> d[s] == e[s]
    ensures Table(g, e) == Table(g, d)
  {
    forall c | 0 <= c < g.nFatent ensures Entry(g, e, c) == Entry(g, d, c) { SameEntry(g, d, e, c); }
  }

  lemma SameEntry(g: Geometry, d: Disc, e: Disc, c: nat)
    requires GeometryOk(g, |d|) && |e| == |d| && c < g.nFatent
    requires forall s :: InFat(g, s) ==> d[s] == e[s]
    ensures Entry(g, e, c) == Entry(g, d, c)
  {
    forall i | 0 <= i < SS * g.fsize ensures FatByte(g, e, i) == FatByte(g, d, i) {
      assert InFat(g, g.fatbase + i / SS);
    }
  }
}
