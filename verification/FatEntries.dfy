/** The entries of a directory as one sequence (system/ff.c: dir_sdi, dir_next, dir_alloc and dir_register).
    On the disc the sequence is cut into sectors, which lie in the fixed root area or along a cluster chain. */
module FatEntries {
  import opened Bits
  import opened FatDisk
  import opened FatVolume
  import opened FatContent
  import opened FatSteps
  import opened FatNames

  const MAX_ENTRIES: nat := 0x1_0000       // MAX_DIR / SZDIRE
  const PER_SECTOR: nat := 16

  // ---------------------------------------------------------------- where the entries are

  /** Where a directory is: along `chain`, or if that is empty in `root` entries from sector `base` on. */
  datatype Area = Area(g: Geometry, chain: seq<nat>, base: nat, root: nat)

  ghost predicate AreaOk(a: Area, n: nat) {
    && GeometryOk(a.g, n) && Distinct(a.g, a.chain) && a.root < MAX_ENTRIES && a.root % PER_SECTOR == 0
    && (a.chain == [] ==>
          a.g.fatbase + a.g.fsize + (if a.g.nFats == 2 then a.g.fsize else 0) <= a.base
          && a.base + a.root / PER_SECTOR <= a.g.database)
  }

  function Sectors(a: Area): (n: nat) {
    if a.chain == [] then a.root / PER_SECTOR else Times(|a.chain|, a.g.csize)
  }

  /** `m * n`. */
  function Times(m: nat, n: nat): (r: nat) {
    if m == 0 then 0 else n + Times(m - 1, n)
  }

  function Count(a: Area): (n: nat) {
    Min(PER_SECTOR * Sectors(a), MAX_ENTRIES)
  }

  function Min(a: nat, b: nat): (r: nat) { if a < b then a else b }

  function SectorAt(a: Area, j: nat): (s: nat)
    requires ClusterSize(a.g.csize)
  {
    if a.chain == [] then a.base + j else SectorOf(a.g, a.chain, j)
  }

  lemma {:induction false} QuotBelow(j: nat, n: nat, m: nat)
    requires n > 0
    ensures j < Times(m, n) <==> Quot(j, n) < m
  {
    if m > 0 && j >= n { QuotBelow(j - n, n, m - 1); }
  }

  lemma {:induction false} RemBelow(j: nat, n: nat)
    requires n > 0
    ensures Rem(j, n) < n
  {
    if j >= n { RemBelow(j - n, n); }
  }

  /** The sectors of a directory are on the disc, outside the FATs. */
  lemma Inside(a: Area, n: nat, j: nat)
    requires AreaOk(a, n) && j < Sectors(a)
    ensures 0 < SectorAt(a, j) < n && !InFats(a.g, SectorAt(a, j))
    ensures a.chain != [] ==> HasSector(a.g, a.chain, j)
  {
    if a.chain != [] {
      QuotBelow(j, a.g.csize, |a.chain|);
      SectorInside(a.g, n, a.chain, j);
    } else {
      BaseMono(a.g, 2, a.g.nFatent);
    }
  }

  /** Different sectors of the directory are different sectors of the disc. */
  lemma Differ(a: Area, n: nat, i: nat, j: nat)
    requires AreaOk(a, n) && i < Sectors(a) && j < Sectors(a) && SectorAt(a, i) == SectorAt(a, j)
    ensures i == j
  {
    Inside(a, n, i);
    Inside(a, n, j);
    if a.chain != [] { SectorsDiffer(a.g, n, a.chain, i, j); }
  }

  /** The sector after sector `j`: in the same cluster, or at the start of the next one if there is one. */
  lemma NextSector(a: Area, n: nat, j: nat)
    requires AreaOk(a, n) && j < Sectors(a) && a.chain != []
    ensures Quot(j, a.g.csize) < |a.chain|
    ensures Rem(j + 1, a.g.csize) != 0 ==>
      j + 1 < Sectors(a) && Quot(j + 1, a.g.csize) == Quot(j, a.g.csize) && SectorAt(a, j + 1) == SectorAt(a, j) + 1
    ensures Rem(j + 1, a.g.csize) == 0 ==>
      Quot(j + 1, a.g.csize) == Quot(j, a.g.csize) + 1
      && (j + 1 < Sectors(a) <==> Quot(j, a.g.csize) + 1 < |a.chain|)
      && (j + 1 < Sectors(a) ==> SectorAt(a, j + 1) == Base(a.g, a.chain[Quot(j, a.g.csize) + 1]))
  {
    QuotBelow(j, a.g.csize, |a.chain|);
    QuotBelow(j + 1, a.g.csize, |a.chain|);
    QuotNext(j, a.g.csize);
    RemBelow(j, a.g.csize);
  }

  // ---------------------------------------------------------------- the entries

  function EntryIn(x: Sector, k: nat): (e: DirEntry)
    requires k < PER_SECTOR
  {
    x[32 * k..32 * k + 32]
  }

  lemma PatchedEntry(x: Sector, k: nat, e: DirEntry, l: nat)
    requires k < PER_SECTOR && l < PER_SECTOR
    ensures EntryIn(Patch(x, 32 * k, e), l) == if l == k then e else EntryIn(x, l)
  {
    var y := Patch(x, 32 * k, e);
    if l != k {
      var p := 32 * l;
      assert p + 32 <= 32 * k || 32 * k + 32 <= p;
      forall i | p <= i < p + 32 ensures y[i] == x[i] {}
    }
  }

  function EntryAt(a: Area, d: Disc, i: nat): (e: DirEntry)
    requires ClusterSize(a.g.csize)
  {
    EntryIn(SectorBytes(d, SectorAt(a, i / PER_SECTOR)), i % PER_SECTOR)
  }

  /** The directory as one sequence. */
  ghost function Entries(a: Area, d: Disc): (t: seq<DirEntry>)
    requires ClusterSize(a.g.csize)
    ensures |t| == Count(a)
  {
    seq(Count(a), i requires 0 <= i < Count(a) => EntryAt(a, d, i))
  }

  lemma {:induction false} TimesIs(m: nat, n: nat)
    ensures Times(m, n) == m * n
  {
    if m > 0 { TimesIs(m - 1, n); }
  }

  /** The number of entries, 65536 at most. */
  lemma CountIs(a: Area, n: nat)
    requires AreaOk(a, n)
    ensures var all := if a.chain == [] then a.root else 16 * (|a.chain| * a.g.csize);
      Count(a) == if all < 65536 then all else 65536
  {
    TimesIs(|a.chain|, a.g.csize);
  }

  /** Where entry `i` is on the disc: 32 bytes of sector i / 16 of the fixed area, or of sector `r` of the chain's
      cluster number `q`. */
  lemma EntryOnDisc(a: Area, d: Disc, i: nat, q: nat, r: nat)
    requires AreaOk(a, |d|) && i < Count(a)
    requires a.chain != [] ==> q < |a.chain| && r < a.g.csize && i / 16 == q * a.g.csize + r
    ensures var s := if a.chain == [] then a.base + i / 16 else a.g.database + a.g.csize * (a.chain[q] - 2) + r;
      0 <= s < |d| && Entries(a, d)[i] == d[s][32 * (i % 16)..32 * (i % 16) + 32]
  {
    Inside(a, |d|, i / 16);
    if a.chain != [] {
      MultipleUnique(i / 16, a.g.csize, q, r);
      QuotRem(i / 16, a.g.csize);
      BaseLinear(a.g, a.chain[q]);
    }
  }

  /** Writing one entry into its sector changes that entry of the sequence and no other. */
  lemma PutEntry(a: Area, d: Disc, i: nat, e: DirEntry)
    requires AreaOk(a, |d|) && i < Count(a)
    ensures var s := SectorAt(a, i / PER_SECTOR);
      s < |d| && Entries(a, d[s := Patch(d[s], 32 * (i % PER_SECTOR), e)]) == Entries(a, d)[i := e]
  {
    Inside(a, |d|, i / PER_SECTOR);
    var s := SectorAt(a, i / PER_SECTOR);
    var d' := d[s := Patch(d[s], 32 * (i % PER_SECTOR), e)];
    forall l | 0 <= l < Count(a) ensures EntryAt(a, d', l) == if l == i then e else EntryAt(a, d, l) {
      Inside(a, |d|, l / PER_SECTOR);
      if SectorAt(a, l / PER_SECTOR) == s {
        Differ(a, |d|, l / PER_SECTOR, i / PER_SECTOR);
        PatchedEntry(d[s], i % PER_SECTOR, e, l % PER_SECTOR);
      }
    }
  }

  // ---------------------------------------------------------------- a place in the directory

  /** A directory object at entry `i`: its sector and the cluster that is in. */
  ghost predicate PlaceOk(a: Area, i: nat, clust: nat, sect: nat)
    requires ClusterSize(a.g.csize)
  {
    i < Count(a) && InSector(a, i / PER_SECTOR, clust, sect)
  }

  ghost predicate InSector(a: Area, j: nat, clust: nat, sect: nat)
    requires ClusterSize(a.g.csize)
  {
    && sect == SectorAt(a, j) != 0
    && (if a.chain == [] then clust == 0 else Quot(j, a.g.csize) < |a.chain| && clust == a.chain[Quot(j, a.g.csize)])
  }

  /** Within a sector only the offset moves. */
  lemma StayInSector(a: Area, i: nat, clust: nat, sect: nat)
    requires ClusterSize(a.g.csize) && PlaceOk(a, i, clust, sect) && (i + 1) % PER_SECTOR != 0 && i + 1 < MAX_ENTRIES
    ensures PlaceOk(a, i + 1, clust, sect)
  {
    assert (i + 1) / PER_SECTOR == i / PER_SECTOR < Sectors(a);
  }

  /** From one sector to the next. */
  lemma SectorAfter(a: Area, i: nat)
    requires i < Count(a) && (i + 1) % PER_SECTOR == 0 && i + 1 < MAX_ENTRIES
    ensures (i + 1) / PER_SECTOR == i / PER_SECTOR + 1 && i / PER_SECTOR < Sectors(a)
    ensures i + 1 < Count(a) <==> i / PER_SECTOR + 1 < Sectors(a)
  {}

  lemma NewPlace(a: Area, i: nat, clust: nat, sect: nat)
    requires ClusterSize(a.g.csize) && (i + 1) % PER_SECTOR == 0 && i + 1 < MAX_ENTRIES
    ensures InSector(a, i / PER_SECTOR + 1, clust, sect) && i / PER_SECTOR + 1 < Sectors(a) ==>
      PlaceOk(a, i + 1, clust, sect)
  {}

  /** Where entry `i` is in its sector. */
  lemma EntryPlace(i: nat)
    ensures 32 * i % SS == 32 * (i % PER_SECTOR) && 32 * i / SS == i / PER_SECTOR && 32 * i % SS + 32 <= SS
    ensures (32 * i + 32) % SS == 0 <==> (i + 1) % PER_SECTOR == 0
    ensures (32 * i + 32) / SS == (i + 1) / PER_SECTOR
  {}

  /** The new cluster follows the last sector. */
  lemma LastSector(a: Area, b: Area, r: nat, j: nat)
    requires a.chain != [] && b == a.(chain := a.chain + [r]) && ClusterSize(a.g.csize)
    requires j < Sectors(a) && Sectors(a) <= j + 1 && Rem(j + 1, a.g.csize) == 0
    ensures j + 1 < Sectors(b) && Quot(j + 1, a.g.csize) == |a.chain|
  {
    MoreSectors(a, b, r);
    QuotBelow(j + 1, a.g.csize, |a.chain|);
    QuotBelow(j + 1, a.g.csize, |b.chain|);
  }

  // ---------------------------------------------------------------- clearing and stretching

  function ZeroSector(): (x: Sector) { Zeroes(512) }

  function ZeroEntry32(): (e: DirEntry) { Zeroes(32) }

  function ClearedAt(d: Disc, s: nat, n: nat, t: nat): (x: Sector)
    requires t < |d|
  {
    if s <= t < s + n then ZeroSector() else d[t]
  }

  /** The disc with `n` sectors from `s` on filled with zeroes. */
  function Cleared(d: Disc, s: nat, n: nat): (e: Disc)
    ensures |e| == |d| && forall t :: 0 <= t < |d| ==> e[t] == if s <= t < s + n then ZeroSector() else d[t]
  {
    seq(|d|, t requires 0 <= t < |d| => ClearedAt(d, s, n, t))
  }

  lemma ClearedMore(d: Disc, s: nat, n: nat)
    requires s + n < |d|
    ensures Cleared(d, s, n + 1) == Cleared(d, s, n)[s + n := ZeroSector()]
  {}

  /** Clearing data sectors touches no table. */
  lemma ClearedBeside(g: Geometry, d: Disc, s: nat, n: nat)
    requires GeometryOk(g, |d|) && g.database <= s && Mirrored(g, d)
    ensures Mirrored(g, Cleared(d, s, n)) && Table(g, Cleared(d, s, n)) == Table(g, d)
  {
    var e := Cleared(d, s, n);
    if g.nFats == 2 {
      forall t | g.fatbase <= t < g.fatbase + g.fsize ensures MirrorAt(g, e, t) { assert MirrorAt(g, d, t); }
    }
    SameTable(g, d, e);
  }

  lemma ClusterRoom(g: Geometry, n: nat, c: nat)
    requires GeometryOk(g, n) && 2 <= c < g.nFatent
    ensures Clst2Sect(g, c) == Base(g, c) && g.database <= Base(g, c) && Base(g, c) + g.csize <= n
  {
    Clst2SectIs(g, n, c);
    BaseMono(g, c, g.nFatent);
  }

  lemma ClearedWindow(g: Geometry, d: Disc, s: nat, n: nat)
    requires GeometryOk(g, |d|) && g.database <= s < |d| && Mirrored(g, d) && n > 0
    ensures WindowOk(g, Cleared(d, s, n), false, s, ZeroSector()) && Table(g, Cleared(d, s, n)) == Table(g, d)
  {
    ClearedBeside(g, d, s, n);
  }

  // ---------------------------------------------------------------- more entries

  /** The sequence has the same entries as before, and after them only cleared ones. */
  ghost predicate Stretches(t: seq<DirEntry>, u: seq<DirEntry>) {
    |t| <= |u| && forall i {:trigger StretchAt(t, u, i)} :: 0 <= i < |u| ==> StretchAt(t, u, i)
  }

  ghost predicate StretchAt(t: seq<DirEntry>, u: seq<DirEntry>, i: int) {
    0 <= i < |u| && if i < |t| then u[i] == t[i] else Blank(u[i])
  }

  /** All 32 bytes are 0. */
  predicate Blank(e: DirEntry) {
    forall k :: 0 <= k < 32 ==> e[k] == 0
  }

  lemma StretchesSelf(t: seq<DirEntry>)
    ensures Stretches(t, t)
  {
    forall i | 0 <= i < |t| ensures StretchAt(t, t, i) {}
  }

  lemma StretchesTwice(t: seq<DirEntry>, u: seq<DirEntry>, v: seq<DirEntry>)
    requires Stretches(t, u) && Stretches(u, v)
    ensures Stretches(t, v)
  {
    forall i | 0 <= i < |v| ensures StretchAt(t, v, i) {
      assert StretchAt(u, v, i);
      if i < |u| { assert StretchAt(t, u, i); }
    }
  }

  lemma ZeroIn(k: nat)
    requires k < PER_SECTOR
    ensures EntryIn(ZeroSector(), k) == ZeroEntry32()
  {}

  /** A directory with one more cluster, cleared. */
  lemma Longer(a: Area, b: Area, d: Disc, m: Disc, r: nat)
    requires AreaOk(a, |d|) && a.chain != [] && b == a.(chain := a.chain + [r]) && AreaOk(b, |d|)
    requires |m| == |d| && forall s :: 0 <= s < |d| && !InFats(a.g, s) ==> m[s] == d[s]
    ensures Stretches(Entries(a, d), Entries(b, Cleared(m, Base(a.g, r), a.g.csize))) && Sectors(b) > Sectors(a)
  {
    var e := Cleared(m, Base(a.g, r), a.g.csize);
    MoreSectors(a, b, r);
    forall i | 0 <= i < Count(b) ensures StretchAt(Entries(a, d), Entries(b, e), i) {
      LongerAt(a, b, d, m, r, i);
    }
  }

  lemma MoreSectors(a: Area, b: Area, r: nat)
    requires a.chain != [] && b == a.(chain := a.chain + [r]) && a.g.csize > 0
    ensures Sectors(b) == Sectors(a) + a.g.csize && Count(a) <= Count(b)
    ensures Count(a) < PER_SECTOR * Sectors(a) ==> Count(b) == Count(a)
  {
    assert |b.chain| == |a.chain| + 1;
  }

  lemma LongerAt(a: Area, b: Area, d: Disc, m: Disc, r: nat, i: nat)
    requires AreaOk(a, |d|) && a.chain != [] && b == a.(chain := a.chain + [r]) && AreaOk(b, |d|) && i < Count(b)
    requires |m| == |d| && forall s :: 0 <= s < |d| && !InFats(a.g, s) ==> m[s] == d[s]
    ensures EntryAt(b, Cleared(m, Base(a.g, r), a.g.csize), i)
         == if i < Count(a) then EntryAt(a, d, i) else ZeroEntry32()
  {
    var j, n := i / PER_SECTOR, a.g.csize;
    MoreSectors(a, b, r);
    Inside(b, |d|, j);
    QuotBelow(j, n, |a.chain|);
    QuotBelow(j, n, |b.chain|);
    RemBelow(j, n);
    var q := Quot(j, n);
    if j < Sectors(a) {
      Inside(a, |d|, j);
      assert b.chain[q] == a.chain[q] != b.chain[|a.chain|];
      if SectorAt(b, j) < Base(a.g, r) + n && Base(a.g, r) <= SectorAt(b, j) {
        ClustersApart(a.g, a.chain[q], r, SectorAt(b, j));
      }
    } else {
      assert q == |a.chain| && b.chain[q] == r;
      ZeroIn(i % PER_SECTOR);
    }
  }

  // ---------------------------------------------------------------- searching for free entries

  predicate IsFree(e: DirEntry) { e[0] == DDEM || e[0] == 0 }

  predicate FreeAt(t: seq<DirEntry>, i: int) {
    0 <= i < |t| && IsFree(t[i])
  }

  predicate AllFree(t: seq<DirEntry>, k: nat, n: nat) {
    k + n <= |t| && forall i {:trigger FreeAt(t, i)} :: k <= i < k + n ==> FreeAt(t, i)
  }

  /** Before entry `i` there are nowhere `n` free entries in a row. */
  predicate NoRun(t: seq<DirEntry>, i: nat, n: nat) {
    forall k {:trigger AllFree(t, k, n)} :: 0 <= k && k + n <= i ==> !AllFree(t, k, n)
  }

  /** Entry `i` is the last of `n` free ones in a row, and no earlier `n` are. */
  predicate FirstRun(t: seq<DirEntry>, i: nat, n: nat) {
    1 <= n <= i + 1 && AllFree(t, i + 1 - n, n) && NoRun(t, i, n)
  }

  /** The search has reached entry `i`: just before it are `n` free entries in a row. */
  predicate Searching(t: seq<DirEntry>, i: nat, n: nat, want: nat) {
    && n < want && n <= i <= |t| && AllFree(t, i - n, n) && (n < i ==> !FreeAt(t, i - n - 1)) && NoRun(t, i, want)
  }

  lemma SearchStarts(t: seq<DirEntry>, want: nat)
    requires 1 <= want
    ensures Searching(t, 0, 0, want)
  {}

  /** The search goes on past entry `i`. */
  lemma SearchGoesOn(t: seq<DirEntry>, i: nat, n: nat, want: nat)
    requires i < |t| && Searching(t, i, n, want)
    ensures FreeAt(t, i) && n + 1 < want ==> Searching(t, i + 1, n + 1, want)
    ensures !FreeAt(t, i) ==> Searching(t, i + 1, 0, want)
  {
    forall k: nat | k + want <= i + 1 && (n + 1 < want || !FreeAt(t, i)) ensures !AllFree(t, k, want) {
      if k + want == i + 1 && FreeAt(t, i) { assert n < i && k <= i - n - 1 && !FreeAt(t, i - n - 1); }
    }
  }

  lemma RunFound(t: seq<DirEntry>, i: nat, n: nat, want: nat)
    requires i < |t| && Searching(t, i, n, want) && FreeAt(t, i) && n + 1 == want
    ensures FirstRun(t, i, want)
  {}

  lemma SearchLonger(t: seq<DirEntry>, u: seq<DirEntry>, i: nat, n: nat, want: nat)
    requires Stretches(t, u) && Searching(t, i, n, want)
    ensures Searching(u, i, n, want)
  {
    forall j | 0 <= j < i ensures FreeAt(u, j) <==> FreeAt(t, j) { assert StretchAt(t, u, j); }
    forall k: nat | k + want <= i ensures !AllFree(u, k, want) { SameRun(t, u, k, want, i); }
  }

  lemma SameRun(t: seq<DirEntry>, u: seq<DirEntry>, k: nat, n: nat, i: nat)
    requires k + n <= i <= |t| && i <= |u|
    requires forall j {:trigger FreeAt(t, j)} {:trigger FreeAt(u, j)} :: 0 <= j < i ==> (FreeAt(u, j) <==> FreeAt(t, j))
    ensures AllFree(u, k, n) <==> AllFree(t, k, n)
  {}

  // ---------------------------------------------------------------- what storing a name does

  /** The name is in the buffer. */
  predicate NameIn(buf: seq<Unit>, name: seq<Unit>) {
    |name| < |buf| && buf[..|name|] == name && buf[|name|] == 0
  }

  /** Entries before `k` and from `l` on are the same. */
  ghost predicate SameOutside(u: seq<DirEntry>, t: seq<DirEntry>, k: nat, l: nat) {
    |t| == |u| && forall i {:trigger SameAt(u, t, i)} :: 0 <= i < |u| && !(k <= i < l) ==> SameAt(u, t, i)
  }

  ghost predicate SameAt(u: seq<DirEntry>, t: seq<DirEntry>, i: int) {
    0 <= i < |u| && i < |t| && t[i] == u[i]
  }

  lemma OneMoreOutside(u: seq<DirEntry>, t: seq<DirEntry>, k: nat, l: nat, e: DirEntry)
    requires SameOutside(u, t, k, l) && k <= l < |u|
    ensures SameOutside(u, t[l := e], k, l + 1)
  {
    var v := t[l := e];
    forall i | 0 <= i < |u| && !(k <= i < l + 1) ensures SameAt(u, v, i) { assert SameAt(u, t, i); }
  }

  /** The first `m` parts are stored from entry `k` on, nothing else is changed. */
  ghost predicate PartsStored(u: seq<DirEntry>, t: seq<DirEntry>, k: nat, name: seq<Unit>, sum: Byte, m: nat) {
    PartsAt(t, k, name, sum, m) && SameOutside(u, t, k, k + m)
  }

  /** All parts but the last `nEnt`. */
  ghost predicate PartsLeft(u: seq<DirEntry>, t: seq<DirEntry>, k: nat, name: seq<Unit>, sum: Byte, nEnt: nat) {
    nEnt <= Parts(|name|) && PartsStored(u, t, k, name, sum, Parts(|name|) - nEnt)
  }

  lemma NothingStored(u: seq<DirEntry>, k: nat, name: seq<Unit>, sum: Byte)
    ensures PartsLeft(u, u, k, name, sum, Parts(|name|))
  {
    forall i | 0 <= i < |u| ensures SameAt(u, u, i) {}
  }

  lemma OnePartMore(u: seq<DirEntry>, t: seq<DirEntry>, k: nat, name: seq<Unit>, sum: Byte, nEnt: nat, i: nat,
                    e: DirEntry, v: seq<DirEntry>)
    requires nEnt > 0 && PartsLeft(u, t, k, name, sum, nEnt) && i == k + (Parts(|name|) - nEnt) < |u| == |t|
    requires IsPart(e, name, nEnt, sum) && v == t[i := e]
    ensures PartsLeft(u, v, k, name, sum, nEnt - 1)
  {
    MoreParts(t, k, name, sum, Parts(|name|) - nEnt, e);
    OneMoreOutside(u, t, k, i, e);
  }

  /** A new short-name entry: the name, the case flags in byte 12, everything else zero. */
  predicate NewShort(e: DirEntry, fn: seq<Byte>, nt: Byte) {
    e[..11] == fn && e[11] == 0 && e[12] == nt && forall i :: 13 <= i < 32 ==> e[i] == 0
  }

  /** The name is stored from entry `k` on, and nothing else is changed. */
  ghost predicate Stored(u: seq<DirEntry>, t: seq<DirEntry>, k: nat, name: seq<Unit>, fn: seq<Byte>, nt: Byte) {
    var n := Parts(|name|);
    Registered(t, k, name) && NewShort(t[k + n], fn, nt) && SameOutside(u, t, k, k + n + 1)
  }

  /** A short name that can be stored. */
  predicate ShortName(fn: seq<Byte>) {
    |fn| == 11 && fn[0] != 0 && fn[0] != DDEM && fn[0] != DOT
  }

  lemma ShortStored(u: seq<DirEntry>, t: seq<DirEntry>, k: nat, name: seq<Unit>, sum: Byte, fn: seq<Byte>, nt: Byte,
                    i: nat, v: seq<DirEntry>)
    requires PartsLeft(u, t, k, name, sum, 0) && i == k + Parts(|name|) < |u| == |t| && GoodName(name)
    requires ShortName(fn) && sum == SumOf(fn) && v == t[i := ShortEntry(fn, nt)]
    ensures Stored(u, v, k, name, fn, nt)
  {
    var e := ShortEntry(fn, nt);
    MoreParts(t, k, name, sum, Parts(|name|), e);
    OneMoreOutside(u, t, k, i, e);
    assert e[..11] == fn;
  }

  /** The name is in entries that were free or did not exist, and everything else is as it was; if what ends the
      directory was behind all entries in use, the name is in front of it. */
  ghost predicate Inserted(t: seq<DirEntry>, u: seq<DirEntry>, k: nat, name: seq<Unit>, fn: seq<Byte>, nt: Byte) {
    var n := Parts(|name|);
    && Registered(u, k, name) && NewShort(u[k + n], fn, nt) && |t| <= |u|
    && (forall i {:trigger FreeAt(t, i)} :: k <= i <= k + n && i < |t| ==> FreeAt(t, i))
    && (forall i {:trigger StretchAt(t, u, i)} :: 0 <= i < |u| && !(k <= i <= k + n) ==> StretchAt(t, u, i))
    && (ZeroTail(t) ==> NoEnd(u, k))
  }

  /** No entry before `k` ends the directory. */
  predicate NoEnd(t: seq<DirEntry>, k: nat) {
    forall i {:trigger EndAt(t, i)} :: 0 <= i < k ==> !EndAt(t, i)
  }

  /** After the first entry that ends the directory all entries do. */
  predicate ZeroTail(t: seq<DirEntry>) {
    forall i, j {:trigger EndAt(t, i), EndAt(t, j)} :: 0 <= i < j < |t| && EndAt(t, i) ==> EndAt(t, j)
  }

  lemma NowInserted(t: seq<DirEntry>, u: seq<DirEntry>, v: seq<DirEntry>, k: nat, name: seq<Unit>, fn: seq<Byte>,
                    nt: Byte)
    requires Stretches(t, u) && FirstRun(u, k + Parts(|name|), Parts(|name|) + 1) && Stored(u, v, k, name, fn, nt)
    ensures Inserted(t, v, k, name, fn, nt)
  {
    var n := Parts(|name|);
    forall i | k <= i <= k + n && i < |t| ensures FreeAt(t, i) { assert FreeAt(u, i) && StretchAt(t, u, i); }
    forall i | 0 <= i < |v| && !(k <= i <= k + n) ensures StretchAt(t, v, i) {
      assert SameAt(u, v, i) && StretchAt(t, u, i);
    }
    if ZeroTail(t) {
      forall i | 0 <= i < k ensures !EndAt(v, i) {
        NoEndBefore(t, u, k, n, i);
        assert SameAt(u, v, i);
      }
    }
  }

  /** With the free entries at the end of the directory, the first run is not behind its end. */
  lemma NoEndBefore(t: seq<DirEntry>, u: seq<DirEntry>, k: nat, n: nat, i: nat)
    requires Stretches(t, u) && ZeroTail(t) && FirstRun(u, k + n, n + 1) && i < k
    ensures !EndAt(u, i)
  {
    forall j | k - 1 <= j < k + n && EndAt(u, i) ensures FreeAt(u, j) { EndGoesOn(t, u, i, j); }
    var l: nat := k - 1;
    assert AllFree(u, l, n + 1) ==> l + (n + 1) > k + n;
  }

  lemma EndGoesOn(t: seq<DirEntry>, u: seq<DirEntry>, i: nat, j: nat)
    requires Stretches(t, u) && ZeroTail(t) && EndAt(u, i) && i <= j < |u|
    ensures FreeAt(u, j)
  {
    assert StretchAt(t, u, i) && StretchAt(t, u, j);
    assert i < j < |t| ==> EndAt(t, i) && EndAt(t, j);
  }

  /** Reading such a directory from its start, file by file, gets to the name. */
  lemma ReachesName(t: seq<DirEntry>, u: seq<DirEntry>, k: nat, name: seq<Unit>, fn: seq<Byte>, nt: Byte, p: nat,
                    st: Scan)
    requires Inserted(t, u, k, name, fn, nt) && ZeroTail(t) && p <= k && |st.buf| == MAX_LFN + 1
    ensures var r := ReadFrom(u, p, st);
      r.FoundAt? && (r.at < k || (r.at == k + Parts(|name|) && r.scan.blkOfs == 32 * k && NameIn(r.scan.buf, name)))
  {
    forall i | p <= i < k ensures u[i][0] != 0 { assert !EndAt(u, i); }
    ReadMeets(u, p, k, name, st);
  }
}
