/** What one step of a file operation does to an open file, on values. */
module FatSteps {
  import opened Bits
  import opened FatDisk
  import opened FatTable
  import opened FatChains
  import opened FatContent
  import opened FatVolume

  /** `clst2sect`: first sector of a cluster, or 0 for a number that is no cluster. The subtraction of 2
      wraps below 2 and so fails the same test. */
  function Clst2Sect(g: Geometry, c: nat): (s: nat) {
    if c < 2 || c - 2 >= g.nFatent - 2 then 0 else g.database + Product(g.csize, c - 2)
  }

  function Product(a: nat, b: nat): (p: nat) {
    a * b
  }

  /** Distinct clusters map to disjoint runs of data sectors; nothing else maps to a sector. */
  lemma Clst2SectIs(g: Geometry, n: nat, c: nat)
    requires GeometryOk(g, n)
    ensures Clst2Sect(g, c) == if 2 <= c < g.nFatent then Base(g, c) else 0
    ensures Clst2Sect(g, c) == 0 <==> !(2 <= c < g.nFatent)
    ensures 2 <= c < g.nFatent ==> Clst2Sect(g, c) == g.database + g.csize * (c - 2)
  {
    if 2 <= c < g.nFatent { BaseLinear(g, c); }
  }

  /** Where byte `i` of a file is on the disc: if its sector is number `r` of the chain's cluster number `q`, in the
      sector that many after the first one of that cluster. */
  lemma ByteOnDisc(g: Geometry, d: Disc, chain: seq<nat>, size: nat, i: nat, q: nat, r: nat)
    requires GeometryOk(g, |d|) && Distinct(g, chain) && i < size && q < |chain| && r < g.csize
    requires i / 512 == q * g.csize + r
    ensures var s := g.database + g.csize * (chain[q] - 2) + r;
      0 <= s < |d| && Content(g, d, chain, size)[i] == d[s][i % 512]
  {
    MultipleUnique(i / 512, g.csize, q, r);
    QuotRem(i / 512, g.csize);
    BaseLinear(g, chain[q]);
    SectorInside(g, |d|, chain, i / 512);
  }

  /** Everything an open file keeps but the position of its cursor. */
  ghost predicate FileCore(g: Geometry, d: Disc, F: seq<nat>, C: Chains, chain: seq<nat>, h: Handle, w: nat, ds: nat) {
    && GeometryOk(g, |d|) && |F| == g.nFatent
    && WellFormed(F, C) && StartOk(C, h.sclust, chain)
    && h.fptr <= h.objsize && SizeOk(g, chain, h.objsize)
    && BufferOk(g, d, chain, h.sect, h.dirty, h.buf)
    && Away(g, F, chain, w) && Away(g, F, chain, ds)
    && DirectorySector(g, |d|, ds) && (h.sect != 0 ==> h.sect != ds)
  }

  /** Directory entries are past the FAT. */
  ghost predicate DirectorySector(g: Geometry, n: nat, ds: nat) {
    g.fatbase + g.fsize + (if g.nFats == 2 then g.fsize else 0) <= ds < n
  }

  ghost predicate FileOk(g: Geometry, d: Disc, F: seq<nat>, C: Chains, chain: seq<nat>, h: Handle, w: nat, ds: nat) {
    FileCore(g, d, F, C, chain, h, w, ds) && CursorOk(g, chain, h.fptr, h.clust, h.sect)
  }

  /** Only the sectors of `chain` and the two copies of the FAT differ. */
  ghost predicate OnlyChain(g: Geometry, d: Disc, e: Disc, chain: seq<nat>) {
    |d| == |e| && forall s :: 0 <= s < |d| && !InFats(g, s) && !OnChain(g, chain, s) ==> e[s] == d[s]
  }

  lemma OnlyTrans(g: Geometry, d: Disc, e: Disc, f: Disc, chain: seq<nat>)
    requires OnlyChain(g, d, e, chain) && OnlyChain(g, e, f, chain)
    ensures OnlyChain(g, d, f, chain)
  {}

  lemma OnlyLonger(g: Geometry, d: Disc, e: Disc, chain: seq<nat>, longer: seq<nat>)
    requires OnlyChain(g, d, e, chain) && forall c :: c in chain ==> c in longer
    ensures OnlyChain(g, d, e, longer)
  {}

  lemma CoreDistinct(g: Geometry, d: Disc, F: seq<nat>, C: Chains, chain: seq<nat>, h: Handle, w: nat, ds: nat)
    requires FileCore(g, d, F, C, chain, h, w, ds)
    ensures Distinct(g, chain) && (chain != [] ==> IsChain(F, chain) && chain[0] == h.sclust)
  {
    ChainDistinct(g, F, chain);
  }

  /** The window never covers a sector of the file. */
  lemma AwayFrom(g: Geometry, n: nat, F: seq<nat>, chain: seq<nat>, w: nat, s: nat)
    requires GeometryOk(g, n) && |F| == g.nFatent && Distinct(g, chain) && Away(g, F, chain, w)
    requires OnChain(g, chain, s)
    ensures w != s
  {
    var c :| c in chain && InCluster(g, c, s);
    assert IsCluster(F, c);
  }

  lemma FatIsAway(g: Geometry, n: nat, F: seq<nat>, chain: seq<nat>, w: nat)
    requires GeometryOk(g, n) && w < g.database
    ensures Away(g, F, chain, w)
  {}

  /** Table accesses leave the window in the FAT or where it was. */
  lemma WindowMoved(g: Geometry, n: nat, F: seq<nat>, chain: seq<nat>, was: nat, w: nat)
    requires GeometryOk(g, n) && Away(g, F, chain, was) && (InFat(g, w) || w == was)
    ensures Away(g, F, chain, w)
  {
    if InFat(g, w) { FatIsAway(g, n, F, chain, w); }
  }

  // ---------------------------------------------------------------- writing the buffer back

  /** Writing the dirty buffer back leaves the file's view as it was. */
  lemma Flushed(g: Geometry, d: Disc, F: seq<nat>, C: Chains, chain: seq<nat>, h: Handle, w: nat, ds: nat)
    requires FileCore(g, d, F, C, chain, h, w, ds) && h.dirty
    ensures g.database <= h.sect < |d| && w != h.sect
    ensures var e := Written(d, h.sect, 1, h.buf);
      e == View(d, h) && FileCore(g, e, F, C, chain, h.(dirty := false), w, ds) && OnlyChain(g, d, e, chain)
  {
    CoreDistinct(g, d, F, C, chain, h, w, ds);
    AwayFrom(g, |d|, F, chain, w, h.sect);
    var e := Written(d, h.sect, 1, h.buf);
    assert h.buf[0..512] == h.buf;
    assert e == View(d, h);
  }

  /** Loading a sector of the file into the clean buffer. */
  lemma Fetched(g: Geometry, d: Disc, F: seq<nat>, C: Chains, chain: seq<nat>, h: Handle, w: nat, ds: nat, k: nat,
                s: nat)
    requires FileCore(g, d, F, C, chain, h, w, ds) && !h.dirty && HasSector(g, chain, k) && s == SectorOf(g, chain, k)
    ensures g.database <= s < |d| && w != s
    ensures FileCore(g, d, F, C, chain, h.(sect := s, buf := d[s]), w, ds) && Flat(d, s, 1) == d[s]
  {
    CoreDistinct(g, d, F, C, chain, h, w, ds);
    SectorInside(g, |d|, chain, k);
    AwayFrom(g, |d|, F, chain, w, s);
    AwayFrom(g, |d|, F, chain, ds, s);
  }

  // ---------------------------------------------------------------- position

  /** `clust` is the cluster of the byte at `fptr`. */
  ghost predicate Positioned(g: Geometry, chain: seq<nat>, fptr: nat, clust: nat)
    requires ClusterSize(g.csize)
  {
    HasSector(g, chain, fptr / SS) && clust == chain[Quot(fptr / SS, g.csize)]
  }

  /** `x & (csize - 1)`. */
  lemma SectorInCluster(g: Geometry, k: nat)
    requires ClusterSize(g.csize)
    ensures And(k, g.csize - 1) == Rem(k, g.csize)
  {
    var p := ClusterPower(g.csize);
    AndRem(k, p);
  }

  /** Off a cluster boundary the current cluster is already that of the byte at `fptr`; on one, the byte
      before it is in the cluster just before. */
  lemma Boundary(g: Geometry, chain: seq<nat>, fptr: nat, clust: nat, sect: nat)
    requires ClusterSize(g.csize) && CursorOk(g, chain, fptr, clust, sect) && fptr > 0
    ensures fptr % SS != 0 || Rem(fptr / SS, g.csize) != 0 ==> Positioned(g, chain, fptr, clust)
    ensures fptr % SS == 0 && Rem(fptr / SS, g.csize) == 0 ==>
      Quot(fptr / SS, g.csize) == Quot((fptr - 1) / SS, g.csize) + 1
  {
    if fptr % SS != 0 {
      assert (fptr - 1) / SS == fptr / SS;
    } else {
      assert (fptr - 1) / SS == fptr / SS - 1;
      QuotNext(fptr / SS - 1, g.csize);
    }
  }

  /** Moving on within one sector. */
  lemma AdvancePart(g: Geometry, chain: seq<nat>, fptr: nat, n: nat, clust: nat, sect: nat)
    requires ClusterSize(g.csize) && Positioned(g, chain, fptr, clust)
    requires 0 < n && fptr % SS + n <= SS && sect == SectorOf(g, chain, fptr / SS)
    ensures CursorOk(g, chain, fptr + n, clust, sect)
  {
    assert (fptr + n - 1) / SS == fptr / SS;
    if (fptr + n) % SS != 0 { assert (fptr + n) / SS == fptr / SS; }
  }

  /** Moving on by whole sectors within one cluster. */
  lemma AdvanceRun(g: Geometry, chain: seq<nat>, fptr: nat, cc: nat, clust: nat, sect: nat)
    requires ClusterSize(g.csize) && Positioned(g, chain, fptr, clust)
    requires 0 < cc && fptr % SS == 0 && Rem(fptr / SS, g.csize) + cc <= g.csize
    ensures CursorOk(g, chain, fptr + SS * cc, clust, sect)
  {
    assert (fptr + SS * cc - 1) / SS == fptr / SS + (cc - 1);
    QuotPlus(fptr / SS, g.csize, cc - 1);
  }

  /** The sector that `clust` and the offset in the cluster name. */
  lemma PositionedSector(g: Geometry, n: nat, chain: seq<nat>, fptr: nat, clust: nat)
    requires GeometryOk(g, n) && Distinct(g, chain) && Positioned(g, chain, fptr, clust)
    ensures Clst2Sect(g, clust) != 0
    ensures Clst2Sect(g, clust) + Rem(fptr / SS, g.csize) == SectorOf(g, chain, fptr / SS)
  {
    Clst2SectIs(g, n, clust);
  }

  // ---------------------------------------------------------------- reading

  /** The end of one stretch of a read or write. */
  predicate Stretch(g: Geometry, fptr: nat, n: nat)
    requires ClusterSize(g.csize)
  {
    0 < n && (fptr % SS + n <= SS
              || (fptr % SS == 0 && n % SS == 0 && Rem(fptr / SS, g.csize) + n / SS <= g.csize))
  }

  lemma WholeSectors(fptr: nat)
    ensures fptr % SS == 0 ==> SS * (fptr / SS) == fptr
    ensures SS * (fptr / SS) + fptr % SS == fptr
  {}

  /** The file has the sector of a byte before its end. */
  lemma HasCurrent(g: Geometry, chain: seq<nat>, fptr: nat, size: nat)
    requires ClusterSize(g.csize) && SizeOk(g, chain, size) && fptr < size
    ensures HasSector(g, chain, fptr / SS)
  {
    EarlierSector(g, chain, fptr, size - 1);
  }

  /** Following the link of the cluster before a cluster boundary. */
  lemma FollowsChain(g: Geometry, F: seq<nat>, chain: seq<nat>, fptr: nat, clust: nat, sect: nat)
    requires ClusterSize(g.csize) && CursorOk(g, chain, fptr, clust, sect) && fptr > 0 && IsChain(F, chain)
    requires fptr % SS == 0 && Rem(fptr / SS, g.csize) == 0
    ensures IsCluster(F, clust)
    ensures HasSector(g, chain, fptr / SS) ==> IsCluster(F, F[clust]) && Positioned(g, chain, fptr, F[clust])
    ensures !HasSector(g, chain, fptr / SS) ==> clust == chain[|chain| - 1] && F[clust] >= |F|
  {
    Boundary(g, chain, fptr, clust, sect);
    var j := Quot((fptr - 1) / SS, g.csize);
    assert LinkAt(F, chain, j);
    if HasSector(g, chain, fptr / SS) { assert LinkAt(F, chain, j + 1); }
  }

  /** The first cluster is that of the first byte. */
  lemma FirstPositioned(g: Geometry, chain: seq<nat>)
    requires ClusterSize(g.csize) && chain != []
    ensures Positioned(g, chain, 0, chain[0])
  {}

  /** The window covers no sector of a run of the file. */
  lemma RunAway(g: Geometry, n: nat, F: seq<nat>, chain: seq<nat>, w: nat, k: nat, cc: nat)
    requires GeometryOk(g, n) && |F| == g.nFatent && Distinct(g, chain) && Away(g, F, chain, w)
    requires HasSector(g, chain, k) && 0 < cc && Rem(k, g.csize) + cc <= g.csize
    ensures var s := SectorOf(g, chain, k); g.database <= s && s + cc <= n && !(s <= w < s + cc)
  {
    var s := SectorOf(g, chain, k);
    SectorInside(g, n, chain, k);
    NextSectors(g, chain, k, cc - 1);
    SectorInside(g, n, chain, k + cc - 1);
    if s <= w < s + cc {
      NextSectors(g, chain, k, w - s);
      SectorInside(g, n, chain, k + (w - s));
      AwayFrom(g, n, F, chain, w, w);
    }
  }

  /** `disk_read` patched with the dirty buffer is what the file holds there. */
  function Patched(x: seq<Byte>, h: Handle, s: nat, cc: nat): (y: seq<Byte>)
    requires |x| == SS * cc
  {
    if h.dirty && s <= h.sect < s + cc then x[..SS * (h.sect - s)] + h.buf + x[SS * (h.sect - s) + SS..] else x
  }

  lemma RunData(g: Geometry, d: Disc, chain: seq<nat>, h: Handle, k: nat, cc: nat, size: nat)
    requires GeometryOk(g, |d|) && Distinct(g, chain) && HasSector(g, chain, k)
    requires Rem(k, g.csize) + cc <= g.csize && 0 < cc && SS * k + SS * cc <= size
    ensures var s := SectorOf(g, chain, k);
      s + cc <= |d|
      && Patched(Flat(d, s, cc), h, s, cc) == Content(g, View(d, h), chain, size)[SS * k..SS * k + SS * cc]
  {
    var s := SectorOf(g, chain, k);
    RunReads(g, View(d, h), chain, k, cc, size);
    if h.dirty && s <= h.sect < s + cc { RunUnderBuffer(d, h, s, cc); } else { RunBesideBuffer(d, h, s, cc); }
  }

  /** The buffer shows its sector as the file sees it. */
  lemma PartData(g: Geometry, d: Disc, chain: seq<nat>, h: Handle, fptr: nat, n: nat, size: nat)
    requires GeometryOk(g, |d|) && Distinct(g, chain) && HasSector(g, chain, fptr / SS)
    requires BufferOk(g, d, chain, h.sect, h.dirty, h.buf) && h.sect == SectorOf(g, chain, fptr / SS)
    requires fptr % SS + n <= SS && fptr + n <= size
    ensures h.buf[fptr % SS..fptr % SS + n] == Content(g, View(d, h), chain, size)[fptr..fptr + n]
  {
    var k, o := fptr / SS, fptr % SS;
    SectorInside(g, |d|, chain, k);
    assert View(d, h)[h.sect] == h.buf;
    PartReads(g, View(d, h), chain, k, o, n, size);
    assert SS * k + o == fptr;
  }

  // ---------------------------------------------------------------- writing

  /** The chains with that of `start` as given. */
  ghost function WithChain(C: Chains, start: nat, chain: seq<nat>): (D: Chains) {
    if start == 0 then C else C[start := chain]
  }

  lemma SameWithChain(C: Chains, start: nat, chain: seq<nat>)
    requires StartOk(C, start, chain)
    ensures WithChain(C, start, chain) == C
  {}

  /** Changing the same chain again. */
  lemma Rechain(C: Chains, D: Chains, was: nat, before: seq<nat>, start: nat, chain: seq<nat>)
    requires D == WithChain(C, was, before) && (was == start || was == 0)
    ensures WithChain(D, start, chain) == WithChain(C, start, chain)
  {}

  function LastOf(chain: seq<nat>): (p: nat) {
    if chain == [] then 0 else chain[|chain| - 1]
  }

  /** An allocated cluster never holds the reserved value, so `create_chain` reports no internal error. */
  lemma NoReserved(F: seq<nat>, C: Chains)
    requires WellFormed(F, C)
    ensures !HasReserved(F)
  {
    forall c | IsCluster(F, c) ensures F[c] != 1 { OwnedIffUsed(F, C, c); }
  }

  /** Handle `h` once its chain starts at `r`, if it had none. */
  function Started(h: Handle, r: nat): (k: Handle) {
    if h.sclust == 0 then h.(sclust := r) else h
  }

  lemma GrowPremise(g: Geometry, F: seq<nat>, C: Chains, chain: seq<nat>, sclust: nat, r: nat)
    requires WellFormed(F, C) && StartOk(C, sclust, chain) && IsCluster(F, r) && F[r] == 0
    ensures CanGrow(F, C, LastOf(chain), sclust, r)
    ensures (LastOf(chain) == 0 <==> chain == []) && (LastOf(chain) == 0 <==> sclust == 0)
  {
    assert sclust != 0 ==> IsChain(F, chain);
    if chain != [] {
      assert LinkAt(F, chain, |chain| - 1);
      assert LinkAt(F, chain, 0);
    }
  }

  /** The file after its chain took in the free cluster `r`. */
  lemma Grew(g: Geometry, d: Disc, e: Disc, F: seq<nat>, C: Chains, chain: seq<nat>, h: Handle,
             was: nat, w: nat, ds: nat, r: nat)
    requires FileCore(g, d, F, C, chain, h, was, ds)
    requires IsCluster(F, r) && F[r] == 0 && SameBeside(g, e, d) && (InFat(g, w) || w == was)
    ensures var p := LastOf(chain);
      (p == 0 || IsCluster(F, p)) && (p != 0 ==> h.sclust in C)
      && FileCore(g, e, Linked(F, p, r, Eoc(g)), Grown(C, p, h.sclust, r), chain + [r], Started(h, r), w, ds)
      && Grown(C, p, h.sclust, r) == WithChain(C, Started(h, r).sclust, chain + [r])
  {
    var p := LastOf(chain);
    var longer := chain + [r];
    EocEndsChain(g, |d|);
    GrowPremise(g, F, C, chain, h.sclust, r);
    GrowKeepsForm(F, C, p, h.sclust, r, Eoc(g));
    WindowMoved(g, |d|, F, chain, was, w);
    AwayGrown(g, F, chain, p, r, Eoc(g), w);
    AwayGrown(g, F, chain, p, r, Eoc(g), ds);
    BufferGrown(g, d, e, chain, longer, h);
  }

  lemma AwayGrown(g: Geometry, F: seq<nat>, chain: seq<nat>, p: nat, r: nat, eoc: nat, s: nat)
    requires Away(g, F, chain, s) && IsCluster(F, r) && F[r] == 0 && (p == 0 || IsCluster(F, p)) && eoc > 0
    ensures Away(g, Linked(F, p, r, eoc), chain + [r], s)
  {}

  lemma BufferGrown(g: Geometry, d: Disc, e: Disc, chain: seq<nat>, longer: seq<nat>, h: Handle)
    requires GeometryOk(g, |d|) && BufferOk(g, d, chain, h.sect, h.dirty, h.buf) && SameBeside(g, e, d)
    requires forall c :: c in chain ==> c in longer
    ensures BufferOk(g, e, longer, h.sect, h.dirty, h.buf)
  {}

  /** Growing the chain or moving the window leaves the content. */
  lemma SameContent(g: Geometry, d: Disc, e: Disc, chain: seq<nat>, longer: seq<nat>, h: Handle)
    requires GeometryOk(g, |d|) && SameBeside(g, e, d) && Distinct(g, chain) && SizeOk(g, chain, h.objsize)
    requires chain <= longer
    ensures Content(g, View(e, h), longer, h.objsize) == Content(g, View(d, h), chain, h.objsize)
  {
    ContentFrame(g, |d|, View(d, h), View(e, h), chain, longer, h.objsize);
  }

  lemma OnlyFat(g: Geometry, d: Disc, e: Disc, chain: seq<nat>)
    requires SameBeside(g, e, d)
    ensures OnlyChain(g, d, e, chain)
  {}

  /** The file is as long as its sectors allow. */
  lemma StillFits(g: Geometry, chain: seq<nat>, size: nat, fptr: nat, n: nat)
    requires ClusterSize(g.csize) && SizeOk(g, chain, size) && fptr + n < 0x1_0000_0000
    requires Stretch(g, fptr, n) && HasSector(g, chain, fptr / SS)
    ensures SizeOk(g, chain, Max(fptr + n, size))
  {
    if fptr % SS + n <= SS {
      assert (fptr + n - 1) / SS == fptr / SS;
    } else {
      assert (fptr + n - 1) / SS == fptr / SS + (n / SS - 1);
      QuotPlus(fptr / SS, g.csize, n / SS - 1);
    }
  }

  /** After `n` bytes went in at `fptr`. */
  function Moved(h: Handle, n: nat): (k: Handle) {
    h.(fptr := h.fptr + n, objsize := Max(h.fptr + n, h.objsize))
  }

  /** The buffer after a direct write: its own sector is refilled from the data. */
  function Refilled(h: Handle, s: nat, cc: nat, x: seq<Byte>): (k: Handle)
    requires |x| == SS * cc
  {
    if s <= h.sect < s + cc then h.(buf := x[SS * (h.sect - s)..SS * (h.sect - s) + SS], dirty := false) else h
  }

  /** Whole sectors of one cluster can be written at `h.fptr`. */
  ghost predicate RunReady(g: Geometry, chain: seq<nat>, h: Handle, cc: nat, x: seq<Byte>)
    requires ClusterSize(g.csize)
  {
    && !h.dirty && Positioned(g, chain, h.fptr, h.clust)
    && h.fptr % SS == 0 && 0 < cc && Rem(h.fptr / SS, g.csize) + cc <= g.csize && |x| == SS * cc
    && h.fptr + |x| < 0x1_0000_0000
  }

  /** The run is on data sectors of the file, clear of the window. */
  lemma RunPlace(g: Geometry, d: Disc, F: seq<nat>, C: Chains, chain: seq<nat>, h: Handle, w: nat, ds: nat,
                 cc: nat, x: seq<Byte>)
    requires FileCore(g, d, F, C, chain, h, w, ds) && RunReady(g, chain, h, cc, x)
    ensures var s := SectorOf(g, chain, h.fptr / SS);
      g.database <= s && s + cc <= |d| && !(s <= w < s + cc) && OnlyChain(g, d, Written(d, s, cc, x), chain)
  {
    CoreDistinct(g, d, F, C, chain, h, w, ds);
    RunAway(g, |d|, F, chain, w, h.fptr / SS, cc);
    RunOnChain(g, d, chain, h.fptr / SS, cc, x);
  }

  lemma WroteRun(g: Geometry, d: Disc, F: seq<nat>, C: Chains, chain: seq<nat>, h: Handle, w: nat, ds: nat,
                 cc: nat, x: seq<Byte>)
    requires FileCore(g, d, F, C, chain, h, w, ds) && RunReady(g, chain, h, cc, x)
    requires SectorOf(g, chain, h.fptr / SS) + cc <= |d|
    ensures var s := SectorOf(g, chain, h.fptr / SS);
      FileOk(g, Written(d, s, cc, x), F, C, chain, Moved(Refilled(h, s, cc, x), |x|), w, ds)
  {
    var s := SectorOf(g, chain, h.fptr / SS);
    StillFits(g, chain, h.objsize, h.fptr, |x|);
    AdvanceRun(g, chain, h.fptr, cc, h.clust, h.sect);
    RunBuffer(g, d, chain, h, s, cc, x);
  }

  lemma WroteRunContent(g: Geometry, d: Disc, F: seq<nat>, C: Chains, chain: seq<nat>, h: Handle, w: nat, ds: nat,
                        cc: nat, x: seq<Byte>)
    requires FileCore(g, d, F, C, chain, h, w, ds) && RunReady(g, chain, h, cc, x)
    ensures var s := SectorOf(g, chain, h.fptr / SS);
      s + cc <= |d|
      && var k := Moved(Refilled(h, s, cc, x), |x|);
         Content(g, View(Written(d, s, cc, x), k), chain, k.objsize)
         == Splice(Content(g, View(d, h), chain, h.objsize), h.fptr, x)
  {
    CoreDistinct(g, d, F, C, chain, h, w, ds);
    WholeSectors(h.fptr);
    StillFits(g, chain, h.objsize, h.fptr, |x|);
    RunRewrites(g, d, chain, h.fptr / SS, cc, x, Max(h.fptr + |x|, h.objsize));
    RewrittenContent(g, d, Written(d, SectorOf(g, chain, h.fptr / SS), cc, x), chain, h.fptr, x, h.objsize);
  }

  lemma RunBuffer(g: Geometry, d: Disc, chain: seq<nat>, h: Handle, s: nat, cc: nat, x: seq<Byte>)
    requires BufferOk(g, d, chain, h.sect, h.dirty, h.buf) && !h.dirty && s + cc <= |d| && |x| == SS * cc
    ensures var k := Refilled(h, s, cc, x);
      !k.dirty && k.sect == h.sect && BufferOk(g, Written(d, s, cc, x), chain, k.sect, k.dirty, k.buf)
  {}

  lemma RunOnChain(g: Geometry, d: Disc, chain: seq<nat>, k: nat, cc: nat, x: seq<Byte>)
    requires GeometryOk(g, |d|) && Distinct(g, chain) && HasSector(g, chain, k)
    requires Rem(k, g.csize) + cc <= g.csize && |x| == SS * cc && SectorOf(g, chain, k) + cc <= |d|
    ensures OnlyChain(g, d, Written(d, SectorOf(g, chain, k), cc, x), chain)
  {
    var s := SectorOf(g, chain, k);
    var e := Written(d, s, cc, x);
    forall t | 0 <= t < |d| && !InFats(g, t) && !OnChain(g, chain, t) ensures e[t] == d[t] {
      if s <= t < s + cc {
        NextSectors(g, chain, k, t - s);
        SectorInside(g, |d|, chain, k + (t - s));
      }
    }
  }

  /** The handle after `x` was copied into the buffer for sector `s`. */
  function Copied(h: Handle, s: nat, x: seq<Byte>): (k: Handle)
    requires h.fptr % SS + |x| <= SS
  {
    Moved(h.(sect := s, buf := Patch(h.buf, h.fptr % SS, x), dirty := true), |x|)
  }

  /** Bytes go into the buffer when it shows their sector, or when they start a sector past the end of the
      file, whatever it shows. */
  lemma WrotePart(g: Geometry, d: Disc, F: seq<nat>, C: Chains, chain: seq<nat>, h: Handle, w: nat, ds: nat,
                  s: nat, x: seq<Byte>)
    requires FileCore(g, d, F, C, chain, h, w, ds) && Positioned(g, chain, h.fptr, h.clust)
    requires s == SectorOf(g, chain, h.fptr / SS)
    requires h.sect == s || (!h.dirty && h.fptr == h.objsize && h.fptr % SS == 0)
    requires 0 < |x| && h.fptr % SS + |x| <= SS && h.fptr + |x| < 0x1_0000_0000
    ensures var k := Copied(h, s, x);
      FileOk(g, d, F, C, chain, k, w, ds)
      && Content(g, View(d, k), chain, k.objsize) == Splice(Content(g, View(d, h), chain, h.objsize), h.fptr, x)
  {
    var k := Copied(h, s, x);
    CoreDistinct(g, d, F, C, chain, h, w, ds);
    SectorInside(g, |d|, chain, h.fptr / SS);
    StillFits(g, chain, h.objsize, h.fptr, |x|);
    AdvancePart(g, chain, h.fptr, |x|, h.clust, s);
    AwayFrom(g, |d|, F, chain, ds, s);
    PartRewrites(g, d, F, chain, h, s, x);
    RewrittenContent(g, View(d, h), View(d, k), chain, h.fptr, x, h.objsize);
  }

  /** What the two ways into the buffer have in common. */
  ghost predicate PartReady(g: Geometry, d: Disc, chain: seq<nat>, h: Handle, s: nat, x: seq<Byte>)
    requires ClusterSize(g.csize)
  {
    && GeometryOk(g, |d|) && Distinct(g, chain) && HasSector(g, chain, h.fptr / SS)
    && s == SectorOf(g, chain, h.fptr / SS) && BufferOk(g, d, chain, h.sect, h.dirty, h.buf)
    && h.fptr % SS + |x| <= SS && SizeOk(g, chain, Max(h.fptr + |x|, h.objsize))
  }

  lemma PartRewrites(g: Geometry, d: Disc, F: seq<nat>, chain: seq<nat>, h: Handle, s: nat, x: seq<Byte>)
    requires ClusterSize(g.csize) && PartReady(g, d, chain, h, s, x)
    requires h.sect == s || (!h.dirty && h.fptr == h.objsize && h.fptr % SS == 0)
    ensures Rewritten(g, View(d, h), View(d, Copied(h, s, x)), chain, h.fptr, x, Max(h.fptr + |x|, h.objsize))
  {
    if h.sect == s { ShownRewrites(g, d, chain, h, s, x); } else { PastEndRewrites(g, d, chain, h, s, x); }
  }

  lemma ShownRewrites(g: Geometry, d: Disc, chain: seq<nat>, h: Handle, s: nat, x: seq<Byte>)
    requires ClusterSize(g.csize) && PartReady(g, d, chain, h, s, x) && h.sect == s
    ensures Rewritten(g, View(d, h), View(d, Copied(h, s, x)), chain, h.fptr, x, Max(h.fptr + |x|, h.objsize))
  {
    var k, o := h.fptr / SS, h.fptr % SS;
    var v, w := View(d, h), View(d, Copied(h, s, x));
    SectorInside(g, |d|, chain, k);
    ShownView(d, h, x);
    assert SS * k + o == h.fptr;
    PatchRewrites(g, v, w, chain, k, o, x, Max(h.fptr + |x|, h.objsize));
  }

  lemma ShownView(d: Disc, h: Handle, x: seq<Byte>)
    requires h.sect < |d| && (!h.dirty ==> d[h.sect] == h.buf) && h.fptr % SS + |x| <= SS
    ensures View(d, h)[h.sect] == h.buf
    ensures View(d, Copied(h, h.sect, x)) == View(d, h)[h.sect := Patch(View(d, h)[h.sect], h.fptr % SS, x)]
  {}

  lemma PastEndRewrites(g: Geometry, d: Disc, chain: seq<nat>, h: Handle, s: nat, x: seq<Byte>)
    requires ClusterSize(g.csize) && PartReady(g, d, chain, h, s, x)
    requires !h.dirty && h.fptr == h.objsize && h.fptr % SS == 0
    ensures Rewritten(g, View(d, h), View(d, Copied(h, s, x)), chain, h.fptr, x, Max(h.fptr + |x|, h.objsize))
  {
    var k := h.fptr / SS;
    SectorInside(g, |d|, chain, k);
    assert SS * k == h.fptr;
    EdgeRewrites(g, d, View(d, Copied(h, s, x)), chain, k, x, h.buf);
  }

  // ---------------------------------------------------------------- seeking

  function ClusterBytes(g: Geometry): (n: nat) {
    g.csize * SS
  }

  lemma {:induction false} QuotTimes(k: nat, n: nat)
    requires n > 0
    ensures k == Quot(k, n) * n + Rem(k, n)
  {
    if k >= n {
      QuotTimes(k - n, n);
      assert Quot(k, n) * n == Quot(k - n, n) * n + n;
    }
  }

  /** Dividing a byte offset by the cluster size, and rounding it down to a cluster boundary. */
  lemma ClusterOf(g: Geometry, y: nat)
    requires ClusterSize(g.csize)
    ensures y / ClusterBytes(g) == Quot(y / SS, g.csize)
  {
    var k, o, n := y / SS, y % SS, g.csize;
    var q, r := Quot(k, n), Rem(k, n);
    QuotTimes(k, n);
    Regroup(q, n, r, o);
    MultipleUnique(y, n * SS, q, r * SS + o);
  }

  lemma Regroup(q: nat, n: nat, r: nat, o: nat)
    requires r < n && o < SS
    ensures q * (n * SS) + (r * SS + o) == (q * n + r) * SS + o && r * SS + o < n * SS
  {}

  function ClusterStart(g: Geometry, y: nat): (r: nat)
    requires ClusterSize(g.csize)
    ensures r <= y
  {
    SS * (y / SS - Rem(y / SS, g.csize))
  }

  /** `y & ~(bcs - 1)`. */
  lemma ClusterMask(g: Geometry, y: Word)
    requires ClusterSize(g.csize)
    ensures And(y, 0x1_0000_0000 - ClusterBytes(g)) == ClusterStart(g, y)
  {
    BytesPower(g);
    Width32();
    HighBits(y, Log(ClusterBytes(g)), ClusterBytes(g), 32, 0x1_0000_0000 - ClusterBytes(g));
    RoundsDown(g, y);
  }

  lemma Width32()
    ensures Pow2(32) == 0x1_0000_0000
  {
    Pow2Consts();
  }

  lemma RoundsDown(g: Geometry, y: nat)
    requires ClusterSize(g.csize)
    ensures y / ClusterBytes(g) * ClusterBytes(g) == ClusterStart(g, y)
  {
    ClusterOf(g, y);
    var k, n := y / SS, g.csize;
    QuotTimes(k, n);
    Assoc3(Quot(k, n), n, SS);
    assert k - Rem(k, n) == Quot(k, n) * n;
  }

  lemma Assoc3(q: nat, n: nat, m: nat)
    ensures q * (n * m) == (q * n) * m == m * (q * n)
  {}

  lemma BytesPower(g: Geometry)
    requires ClusterSize(g.csize)
    ensures Pow2(Log(ClusterBytes(g))) == ClusterBytes(g) && Log(ClusterBytes(g)) <= 32
  {
    var p := ClusterPower(g.csize);
    assert Pow2(9) == 512;
    Pow2Add(p, 9);
    LogIs(ClusterBytes(g), p + 9);
  }

  lemma {:induction false} RemStart(k: nat, n: nat)
    requires n > 0
    ensures Rem(k - Rem(k, n), n) == 0 && Quot(k - Rem(k, n), n) == Quot(k, n)
  {
    if k >= n { RemStart(k - n, n); }
  }

  /** `clst` is the cluster that starts at offset `pos` of the file. */
  ghost predicate AtCluster(g: Geometry, chain: seq<nat>, pos: nat, clst: nat)
    requires ClusterSize(g.csize)
  {
    pos % SS == 0 && Rem(pos / SS, g.csize) == 0 && Positioned(g, chain, pos, clst)
  }

  /** The start of the current cluster. */
  lemma CurrentStart(g: Geometry, chain: seq<nat>, fptr: nat, clust: nat, sect: nat)
    requires ClusterSize(g.csize) && CursorOk(g, chain, fptr, clust, sect) && fptr > 0
    ensures AtCluster(g, chain, ClusterStart(g, fptr - 1), clust)
  {
    var k := (fptr - 1) / SS;
    RemStart(k, g.csize);
    assert ClusterStart(g, fptr - 1) / SS == k - Rem(k, g.csize);
  }

  /** Start of a cluster not after that of `y` is not after `y`. */
  lemma StartBefore(g: Geometry, x: nat, y: nat)
    requires ClusterSize(g.csize) && Quot(x / SS, g.csize) <= Quot(y / SS, g.csize)
    ensures ClusterStart(g, x) <= y
  {
    var k, l := x / SS, y / SS;
    RemStart(k, g.csize);
    if k - Rem(k, g.csize) > l {
      var m := k - Rem(k, g.csize) - 1;
      QuotNext(m, g.csize);
      QuotMono(l, m, g.csize);
    }
  }

  /** From the start of a cluster to that of the next. */
  lemma NextStart(g: Geometry, chain: seq<nat>, pos: nat, clst: nat)
    requires ClusterSize(g.csize) && AtCluster(g, chain, pos, clst)
    ensures var q := pos + ClusterBytes(g);
      q % SS == 0 && Rem(q / SS, g.csize) == 0 && Quot(q / SS, g.csize) == Quot(pos / SS, g.csize) + 1
  {
    assert (pos + ClusterBytes(g)) / SS == pos / SS + g.csize;
  }

  /** `fptr` is inside the cluster `clust` or at its end. */
  ghost predicate Arrived(g: Geometry, chain: seq<nat>, fptr: nat, clust: nat)
    requires ClusterSize(g.csize)
  {
    fptr > 0 && HasSector(g, chain, (fptr - 1) / SS) && clust == chain[Quot((fptr - 1) / SS, g.csize)]
  }

  lemma ArriveInside(g: Geometry, chain: seq<nat>, pos: nat, clst: nat, rest: nat)
    requires ClusterSize(g.csize) && AtCluster(g, chain, pos, clst) && 0 < rest <= ClusterBytes(g)
    ensures Arrived(g, chain, pos + rest, clst)
    ensures rest % SS != 0 ==>
      Positioned(g, chain, pos + rest, clst) && Rem((pos + rest) / SS, g.csize) == rest / SS
  {
    assert (pos + rest - 1) / SS == pos / SS + (rest - 1) / SS;
    QuotPlus(pos / SS, g.csize, (rest - 1) / SS);
    if rest % SS != 0 {
      assert (pos + rest) / SS == pos / SS + rest / SS;
      QuotPlus(pos / SS, g.csize, rest / SS);
    }
  }

  /** The end of the last cluster is not before the end of the file. */
  lemma LastEnd(g: Geometry, chain: seq<nat>, pos: nat, clst: nat, size: nat)
    requires ClusterSize(g.csize) && AtCluster(g, chain, pos, clst) && SizeOk(g, chain, size)
    requires Quot(pos / SS, g.csize) == |chain| - 1
    ensures size <= pos + ClusterBytes(g)
  {
    if size > pos + ClusterBytes(g) {
      NextStart(g, chain, pos, clst);
      QuotMono((pos + ClusterBytes(g)) / SS, (size - 1) / SS, g.csize);
    }
  }

  /** A larger size that still fits leaves the bytes there were. */
  lemma LongerContent(g: Geometry, v: Disc, chain: seq<nat>, size: nat, more: nat)
    requires ClusterSize(g.csize) && size <= more
    ensures Content(g, v, chain, more)[..size] == Content(g, v, chain, size)
  {}

  // ---------------------------------------------------------------- truncating

  /** Clusters a file of `size` bytes needs. */
  ghost function ClustersFor(g: Geometry, size: nat): (i: nat)
    requires ClusterSize(g.csize)
  {
    if size == 0 then 0 else Quot((size - 1) / SS, g.csize) + 1
  }

  /** A chain of `was` clusters has become as long as the byte at `pos` needs, if it was not already. */
  ghost predicate Stretched(g: Geometry, was: nat, chain: seq<nat>, pos: nat)
    requires ClusterSize(g.csize)
  {
    |chain| == Max(was, Quot(pos / SS, g.csize) + 1)
  }

  /** Position `pos` is where the last cluster ends. */
  ghost predicate AtEnd(g: Geometry, chain: seq<nat>, pos: nat)
    requires ClusterSize(g.csize)
  {
    pos % SS == 0 && Rem(pos / SS, g.csize) == 0 && Quot(pos / SS, g.csize) == |chain|
  }

  /** The byte before `q` is in the same cluster as the byte at `p`. */
  ghost predicate LastByte(g: Geometry, p: nat, q: nat)
    requires ClusterSize(g.csize)
  {
    ClustersFor(g, q) == Quot(p / SS, g.csize) + 1
  }

  lemma RunLastByte(g: Geometry, fptr: nat, cc: nat)
    requires ClusterSize(g.csize) && 0 < cc && fptr % SS == 0 && Rem(fptr / SS, g.csize) + cc <= g.csize
    ensures LastByte(g, fptr, fptr + SS * cc)
  {
    assert (fptr + SS * cc - 1) / SS == fptr / SS + (cc - 1);
    QuotPlus(fptr / SS, g.csize, cc - 1);
  }

  lemma InsideLastByte(g: Geometry, pos: nat, ofs: nat)
    requires ClusterSize(g.csize) && pos % SS == 0 && Rem(pos / SS, g.csize) == 0 && 0 < ofs <= ClusterBytes(g)
    ensures LastByte(g, pos, pos + ofs)
  {
    assert (pos + ofs - 1) / SS == pos / SS + (ofs - 1) / SS;
    assert (ofs - 1) / SS < g.csize;
    QuotPlus(pos / SS, g.csize, (ofs - 1) / SS);
  }

  /** At the end of the chain nothing more is needed for what comes before. */
  lemma EndNeeds(g: Geometry, chain: seq<nat>, pos: nat)
    requires ClusterSize(g.csize) && AtEnd(g, chain, pos)
    ensures ClustersFor(g, pos) == |chain|
  {
    if pos > 0 {
      assert (pos - 1) / SS == pos / SS - 1;
      QuotNext(pos / SS - 1, g.csize);
    }
  }

  lemma ClustersMono(g: Geometry, p: nat, q: nat)
    requires ClusterSize(g.csize) && p <= q
    ensures ClustersFor(g, p) <= ClustersFor(g, q)
  {
    if p > 0 { QuotMono((p - 1) / SS, (q - 1) / SS, g.csize); }
  }

  /** A file has the clusters it needs. */
  lemma ClustersThere(g: Geometry, chain: seq<nat>, size: nat, p: nat)
    requires ClusterSize(g.csize) && SizeOk(g, chain, size) && p <= size
    ensures ClustersFor(g, p) <= |chain|
  {
    ClustersMono(g, p, size);
  }

  /** `G` is `F` with the clusters of `s` from position `i` on freed, if there are any. */
  ghost predicate Trimmed(F: seq<nat>, G: seq<nat>, s: seq<nat>, i: nat) {
    i <= |s| && (if i == |s| then G == F else IsCut(F, G, s, i))
  }

  /** The chains once that of `start` is `chain`, gone if it is empty. */
  ghost function Shortened(C: Chains, start: nat, chain: seq<nat>): (D: Chains) {
    if chain == [] then map h | h in C && h != start :: C[h] else C[start := chain]
  }

  lemma TrimKeepsForm(F: seq<nat>, G: seq<nat>, C: Chains, start: nat, chain: seq<nat>, i: nat)
    requires WellFormed(F, C) && start in C && chain == C[start] && chain != [] && Trimmed(F, G, chain, i)
    ensures WellFormed(G, Shortened(C, start, chain[..i]))
  {
    if i == |chain| {
      assert chain[..i] == chain;
      assert Shortened(C, start, chain) == C;
    } else {
      CutKeepsForm(F, G, C, start, i);
      assert Shortened(C, start, chain[..i]) == Cut(C, start, i);
    }
  }

  lemma AwayTrimmed(g: Geometry, F: seq<nat>, G: seq<nat>, chain: seq<nat>, i: nat, s: nat)
    requires Away(g, F, chain, s) && Trimmed(F, G, chain, i)
    ensures |G| == |F| && Away(g, G, chain[..i], s)
  {
    forall c | IsCluster(G, c) && InCluster(g, c, s) ensures G[c] != 0 && c !in chain[..i] {
      assert F[c] != 0 && c !in chain;
      if i < |chain| {
        assert c !in chain[i..];
        assert i > 0 ==> chain[i - 1] in chain;
      }
    }
  }

  /** The handle of a file cut off at its pointer. */
  function CutOff(h: Handle): (k: Handle) {
    h.(objsize := h.fptr, dirty := false, sclust := if h.fptr == 0 then 0 else h.sclust)
  }

  lemma TrimBuffer(g: Geometry, d: Disc, e: Disc, chain: seq<nat>, less: seq<nat>, h: Handle)
    requires GeometryOk(g, |d|) && BufferOk(g, d, chain, h.sect, h.dirty, h.buf) && SameBeside(g, e, d)
    ensures BufferOk(g, View(e, h), less, h.sect, false, h.buf)
  {}

  lemma TrimCursor(g: Geometry, chain: seq<nat>, fptr: nat, clust: nat, sect: nat, size: nat)
    requires ClusterSize(g.csize) && CursorOk(g, chain, fptr, clust, sect) && SizeOk(g, chain, size) && fptr < size
    ensures ClustersFor(g, fptr) <= |chain|
    ensures var less := chain[..ClustersFor(g, fptr)];
      CursorOk(g, less, fptr, clust, sect) && SizeOk(g, less, fptr)
  {
    if fptr % SS != 0 { assert (fptr - 1) / SS == fptr / SS; }
  }

  /** Cutting a file off at its pointer keeps everything in order. */
  lemma CutFile(g: Geometry, d: Disc, e: Disc, F: seq<nat>, G: seq<nat>, C: Chains, chain: seq<nat>, h: Handle,
                was: nat, w: nat, ds: nat)
    requires FileOk(g, d, F, C, chain, h, was, ds) && h.fptr < h.objsize
    requires SameBeside(g, e, d) && (InFat(g, w) || w == was)
    requires Trimmed(F, G, chain, ClustersFor(g, h.fptr))
    ensures var less := chain[..ClustersFor(g, h.fptr)];
      FileOk(g, View(e, h), G, Shortened(C, h.sclust, less), less, CutOff(h), w, ds)
  {
    var less := chain[..ClustersFor(g, h.fptr)];
    HasCurrent(g, chain, h.fptr, h.objsize);
    TrimCursor(g, chain, h.fptr, h.clust, h.sect, h.objsize);
    TrimKeepsForm(F, G, C, h.sclust, chain, ClustersFor(g, h.fptr));
    WindowMoved(g, |d|, F, chain, was, w);
    AwayTrimmed(g, F, G, chain, ClustersFor(g, h.fptr), w);
    AwayTrimmed(g, F, G, chain, ClustersFor(g, h.fptr), ds);
    TrimBuffer(g, d, e, chain, less, h);
  }

  /** What is left of it is a prefix of what there was. */
  lemma CutContent(g: Geometry, d: Disc, e: Disc, F: seq<nat>, C: Chains, chain: seq<nat>, h: Handle, was: nat, ds: nat)
    requires FileOk(g, d, F, C, chain, h, was, ds) && h.fptr < h.objsize && SameBeside(g, e, d)
    ensures ClustersFor(g, h.fptr) <= |chain|
    ensures Content(g, View(e, h), chain[..ClustersFor(g, h.fptr)], h.fptr)
         == Content(g, View(d, h), chain, h.objsize)[..h.fptr]
  {
    var less := chain[..ClustersFor(g, h.fptr)];
    CoreDistinct(g, d, F, C, chain, h, was, ds);
    TrimCursor(g, chain, h.fptr, h.clust, h.sect, h.objsize);
    SmallerSize(g, chain, h.objsize, h.fptr);
    ContentFrame(g, |d|, View(e, h), View(e, h), less, chain, h.fptr);
    ContentFrame(g, |d|, View(d, h), View(e, h), chain, chain, h.fptr);
    Prefix(g, View(d, h), chain, h.objsize, h.fptr);
  }

  lemma CutOnly(g: Geometry, d: Disc, e: Disc, chain: seq<nat>, h: Handle)
    requires SameBeside(g, e, d) && BufferOk(g, d, chain, h.sect, h.dirty, h.buf)
    ensures OnlyChain(g, d, View(e, h), chain)
  {}

  /** The window does not cover the buffered sector. */
  lemma BufferAway(g: Geometry, d: Disc, F: seq<nat>, C: Chains, chain: seq<nat>, h: Handle, was: nat, ds: nat, w: nat)
    requires FileCore(g, d, F, C, chain, h, was, ds) && h.dirty && (InFat(g, w) || w == was)
    ensures g.database <= h.sect < |d| && w != h.sect
  {
    CoreDistinct(g, d, F, C, chain, h, was, ds);
    WindowMoved(g, |d|, F, chain, was, w);
    AwayFrom(g, |d|, F, chain, w, h.sect);
  }

  /** All of it, in terms of the disc `e` the removal left and the window at `w`. */
  lemma CutAll(g: Geometry, d: Disc, e: Disc, F: seq<nat>, G: seq<nat>, C: Chains, chain: seq<nat>, h: Handle,
               was: nat, w: nat, ds: nat)
    requires FileOk(g, d, F, C, chain, h, was, ds) && h.fptr < h.objsize
    requires SameBeside(g, e, d) && (InFat(g, w) || w == was)
    requires Trimmed(F, G, chain, ClustersFor(g, h.fptr))
    ensures ClustersFor(g, h.fptr) <= |chain|
    ensures var less := chain[..ClustersFor(g, h.fptr)];
      && FileOk(g, View(e, h), G, Shortened(C, h.sclust, less), less, CutOff(h), w, ds)
      && Content(g, View(e, h), less, h.fptr) == Content(g, View(d, h), chain, h.objsize)[..h.fptr]
    ensures OnlyChain(g, d, View(e, h), chain)
    ensures h.dirty ==> g.database <= h.sect < |d| && w != h.sect
  {
    CutFile(g, d, e, F, G, C, chain, h, was, w, ds);
    CutContent(g, d, e, F, C, chain, h, was, ds);
    CutOnly(g, d, e, chain, h);
    if h.dirty { BufferAway(g, d, F, C, chain, h, was, ds, w); }
  }

  // ---------------------------------------------------------------- syncing

  function Bytes16Of(v: Word): (x: seq<Byte>)
    ensures |x| == 2
  {
    [v % 256, v / 256 % 256]
  }

  /** The directory entry `f_sync` leaves: archive attribute at 11, no access date at 18, the upper half of
      the first cluster at 20 on FAT32 only, the time at 22, the lower half at 26, the size at 28. */
  function UpdatedEntry(e: seq<Byte>, t: FsType, start: Word, size: Word, tm: Word): (r: seq<Byte>)
    requires |e| == 32
    ensures |r| == 32
  {
    OrBound8(e[11]);
    var attr: Byte := Or(e[11], 0x20);
    e[..11] + [attr] + e[12..18] + Bytes16Of(0) + (if t == Fat32 then Bytes16Of(start / 0x1_0000) else e[20..22])
      + Bytes32(tm) + Bytes16Of(start) + Bytes32(size)
  }

  lemma OrBound8(b: Byte)
    ensures Or(b, 0x20) < 256
  {
    assert Pow2(8) == 256;
    OrBound(b, 0x20, 8);
  }

  /** `ld_clust`: the first cluster an entry names; its upper half counts on FAT32 only. */
  function LoadStart(e: seq<Byte>, t: FsType): (c: nat)
    requires |e| == 32
  {
    Word16(e[26], e[27]) + (if t == Fat32 then 0x1_0000 * Word16(e[20], e[21]) else 0)
  }

  function LoadSize(e: seq<Byte>): (n: nat)
    requires |e| == 32
  {
    Word32(e[28], e[29], e[30], e[31])
  }

  /** Directory entry `r` is `e` brought up to date: archive bit, first cluster, size and time, no access date;
      everything else as it was. */
  ghost predicate EntryIs(e: seq<Byte>, r: seq<Byte>, t: FsType, start: nat, size: nat, tm: nat) {
    && |e| == |r| == 32
    && r[..11] == e[..11] && r[11] == (if e[11] / 0x20 % 2 == 1 then e[11] else e[11] + 0x20) && r[12..18] == e[12..18]
    && r[18] == 0 && r[19] == 0
    && (if t == Fat32 then Number(r[20..22]) == start / 0x1_0000 else r[20..22] == e[20..22])
    && Number(r[22..26]) == tm && Number(r[26..28]) == start % 0x1_0000 && Number(r[28..32]) == size
  }

  /** In directory sector `x` the entry at byte `ofs` is brought up to date, and nothing else is changed. */
  ghost predicate Records(g: Geometry, x: Sector, d: Disc, ds: nat, ofs: nat, start: nat, size: nat, tm: nat) {
    ds < |d| && ofs + 32 <= SS
    && d[ds][..ofs] == x[..ofs] && d[ds][ofs + 32..] == x[ofs + 32..]
    && EntryIs(x[ofs..ofs + 32], d[ds][ofs..ofs + 32], g.fsType, start, size, tm)
  }

  lemma UpdatedIs(e: seq<Byte>, t: FsType, start: Word, size: Word, tm: Word)
    requires |e| == 32
    ensures EntryIs(e, UpdatedEntry(e, t, start, size, tm), t, start, size, tm)
  {
    var r := UpdatedEntry(e, t, start, size, tm);
    UpdatedParts(e, t, start, size, tm);
    Bytes32Number(tm);
    Bytes32Number(size);
    Halves(start);
    Bytes16Number(start);
    Bytes16Number(start / 0x1_0000);
    ArchiveBit(e[11]);
  }

  lemma UpdatedParts(e: seq<Byte>, t: FsType, start: Word, size: Word, tm: Word)
    requires |e| == 32
    ensures var r := UpdatedEntry(e, t, start, size, tm);
      && r[..11] == e[..11] && r[11] == Or(e[11], 0x20) && r[12..18] == e[12..18] && r[18..20] == Bytes16Of(0)
      && (if t == Fat32 then r[20..22] == Bytes16Of(start / 0x1_0000) else r[20..22] == e[20..22])
      && r[22..26] == Bytes32(tm) && r[26..28] == Bytes16Of(start) && r[28..32] == Bytes32(size)
      && r[18] == 0 && r[19] == 0
  {
    var r := UpdatedEntry(e, t, start, size, tm);
    assert r[..11] == e[..11] && r[12..18] == e[12..18];
    assert r[18..20] == Bytes16Of(0) && r[18] == r[18..20][0] && r[19] == r[18..20][1];
    assert r[22..26] == Bytes32(tm) && r[26..28] == Bytes16Of(start) && r[28..32] == Bytes32(size);
    if t == Fat32 {
      assert r[20..22] == Bytes16Of(start / 0x1_0000);
    } else {
      assert r[20..22] == e[20..22];
    }
  }

  lemma Bytes16Number(v: Word)
    ensures Number(Bytes16Of(v)) == v % 0x1_0000
  {
    Halves(v);
    LittleEndian(v % 256, v / 256 % 256, 0, 0);
  }

  lemma ArchiveBit(b: Byte)
    ensures Or(b, 0x20) == if b / 0x20 % 2 == 1 then b else b + 0x20
  {
    assert Pow2(5) == 0x20;
    SetBit(b, 5);
  }

  /** Setting digit `k`. */
  lemma {:induction false} SetBit(b: nat, k: nat)
    ensures Or(b, Pow2(k)) == if Bit(b, k) then b else b + Pow2(k)
    ensures Bit(b, k) <==> b / Pow2(k) % 2 == 1
  {
    if k == 0 {
      OrZero(b / 2);
    } else {
      SetBit(b / 2, k - 1);
      HalfThen(b, Pow2(k - 1));
      if b == 0 { assert Or(0, Pow2(k)) == Pow2(k); }
    }
  }

  /** Such an entry names that first cluster and size. */
  lemma IsLoads(e: seq<Byte>, r: seq<Byte>, t: FsType, start: Word, size: Word, tm: Word)
    requires EntryIs(e, r, t, start, size, tm) && (t != Fat32 ==> start < 0x1_0000)
    ensures LoadStart(r, t) == start && LoadSize(r) == size
  {
    FieldsAt(r);
    LittleEndian(r[20], r[21], 0, 0);
    LittleEndian(r[26], r[27], 0, 0);
    LittleEndian(r[28], r[29], r[30], r[31]);
    SplitWord(start);
  }

  lemma Halves(v: Word)
    ensures Word16(v % 256, v / 256 % 256) == v % 0x1_0000
    ensures var h := v / 0x1_0000; Word16(h % 256, h / 256 % 256) == h
  {
    Bytes16(v);
    Bytes16(v / 0x1_0000);
  }

  /** Reading the entry back gives what was written, whatever was there before. */
  lemma EntryReadsBack(e: seq<Byte>, t: FsType, start: Word, size: Word, tm: Word)
    requires |e| == 32 && (t != Fat32 ==> start < 0x1_0000)
    ensures LoadStart(UpdatedEntry(e, t, start, size, tm), t) == start
    ensures LoadSize(UpdatedEntry(e, t, start, size, tm)) == size
  {
    UpdatedFields(e, t, start, size, tm);
    FieldsReadBack(UpdatedEntry(e, t, start, size, tm), t, start, size);
  }

  lemma UpdatedFields(e: seq<Byte>, t: FsType, start: Word, size: Word, tm: Word)
    requires |e| == 32
    ensures var r := UpdatedEntry(e, t, start, size, tm);
      r[26..28] == Bytes16Of(start) && r[28..32] == Bytes32(size)
      && (t == Fat32 ==> r[20..22] == Bytes16Of(start / 0x1_0000))
  {
    var r := UpdatedEntry(e, t, start, size, tm);
    assert r[26..28] == Bytes16Of(start);
    assert r[28..32] == Bytes32(size);
    if t == Fat32 { assert r[20..22] == Bytes16Of(start / 0x1_0000); }
  }

  lemma FieldsReadBack(r: seq<Byte>, t: FsType, start: Word, size: Word)
    requires |r| == 32 && (t != Fat32 ==> start < 0x1_0000)
    requires r[26..28] == Bytes16Of(start) && r[28..32] == Bytes32(size)
    requires t == Fat32 ==> r[20..22] == Bytes16Of(start / 0x1_0000)
    ensures LoadStart(r, t) == start && LoadSize(r) == size
  {
    FieldsAt(r);
    Halves(start);
    LoadStored32(size);
    SplitWord(start);
  }

  lemma SplitWord(v: Word)
    ensures v == v % 0x1_0000 + 0x1_0000 * (v / 0x1_0000)
  {}

  lemma FieldsAt(r: seq<Byte>)
    requires |r| == 32
    ensures r[20..22] == [r[20], r[21]] && r[26..28] == [r[26], r[27]]
    ensures r[28..32] == [r[28], r[29], r[30], r[31]]
  {}

  /** The rest of the entry stays, and the archive bit is set. */
  lemma EntryKeeps(e: seq<Byte>, t: FsType, start: Word, size: Word, tm: Word)
    requires |e| == 32
    ensures var r := UpdatedEntry(e, t, start, size, tm);
      r[..11] == e[..11] && r[12..18] == e[12..18] && Bit(r[11], 5)
      && (t != Fat32 ==> r[20..22] == e[20..22])
  {
    var r := UpdatedEntry(e, t, start, size, tm);
    assert r[..11] == e[..11];
    assert r[12..18] == e[12..18];
    assert t != Fat32 ==> r[20..22] == e[20..22];
    assert Pow2(5) == 0x20;
    BitOr(e[11], Pow2(5), 5);
    BitPow2(5, 5);
  }

  lemma StartStored(g: Geometry, d: Disc, F: seq<nat>, C: Chains, chain: seq<nat>, h: Handle, w: nat, ds: nat)
    requires FileCore(g, d, F, C, chain, h, w, ds)
    ensures h.sclust < MaxEntries(g.fsType) && h.objsize < 0x1_0000_0000
  {
    CoreDistinct(g, d, F, C, chain, h, w, ds);
    assert h.sclust != 0 ==> IsChain(F, chain);
  }

  /** Besides the file's sectors and the FAT, only its directory entry and the FSInfo sector changed. */
  ghost predicate OnlySynced(g: Geometry, d: Disc, e: Disc, chain: seq<nat>, ds: nat) {
    |d| == |e|
    && forall s :: 0 <= s < |d| && !InFats(g, s) && !OnChain(g, chain, s) && s != ds && s != g.volbase + 1 ==>
        e[s] == d[s]
  }

  lemma SyncedNothing(g: Geometry, d: Disc, chain: seq<nat>, ds: nat)
    ensures OnlySynced(g, d, d, chain, ds)
  {}

  /** Overwriting a sector of another file or of the reserved area leaves the file. */
  lemma OtherSector(g: Geometry, d: Disc, F: seq<nat>, C: Chains, chain: seq<nat>, h: Handle, was: nat, w: nat, ds: nat,
                    s: nat, x: Sector)
    requires FileCore(g, d, F, C, chain, h, was, ds) && !h.dirty && s < |d|
    requires Away(g, F, chain, s) && (h.sect != 0 ==> h.sect != s) && Away(g, F, chain, w)
    ensures FileCore(g, d[s := x], F, C, chain, h, w, ds)
    ensures Content(g, View(d[s := x], h), chain, h.objsize) == Content(g, View(d, h), chain, h.objsize)
  {
    CoreDistinct(g, d, F, C, chain, h, was, ds);
    var e: Disc := d[s := x];
    forall t | g.database <= t < |d| && OnChain(g, chain, t) ensures d[t] == e[t] {
      AwayFrom(g, |d|, F, chain, s, t);
    }
    ContentFrame(g, |d|, d, e, chain, chain, h.objsize);
  }

  lemma EntryStored(g: Geometry, d: Disc, F: seq<nat>, C: Chains, chain: seq<nat>, h: Handle, was: nat, ds: nat,
                    ofs: nat, entry: seq<Byte>, before: Disc, tm: Word)
    requires FileCore(g, d, F, C, chain, h, was, ds) && !h.dirty
    requires ofs + 32 <= SS && ds < |d| && OnlyChain(g, before, d, chain)
    requires EntryIs(d[ds][ofs..ofs + 32], entry, g.fsType, h.sclust, h.objsize, tm)
    ensures var e := d[ds := Patch(d[ds], ofs, entry)];
      FileCore(g, e, F, C, chain, h, ds, ds) && OnlySynced(g, before, e, chain, ds)
      && Records(g, before[ds], e, ds, ofs, h.sclust, h.objsize, tm)
      && Content(g, View(e, h), chain, h.objsize) == Content(g, View(d, h), chain, h.objsize)
  {
    OtherSector(g, d, F, C, chain, h, was, ds, ds, ds, Patch(d[ds], ofs, entry));
    assert Patch(d[ds], ofs, entry)[ofs..ofs + 32] == entry;
    DirectorySame(g, d, F, C, chain, h, was, ds, before);
    PatchedAround(d[ds], ofs, entry);
  }

  lemma PatchedAround(x: Sector, ofs: nat, entry: seq<Byte>)
    requires ofs + |entry| <= SS
    ensures var y := Patch(x, ofs, entry);
      y[..ofs] == x[..ofs] && y[ofs + |entry|..] == x[ofs + |entry|..] && y[ofs..ofs + |entry|] == entry
  {}

  /** The file's own sectors do not include that of its directory entry. */
  lemma DirectorySame(g: Geometry, d: Disc, F: seq<nat>, C: Chains, chain: seq<nat>, h: Handle, w: nat, ds: nat,
                      before: Disc)
    requires FileCore(g, d, F, C, chain, h, w, ds) && OnlyChain(g, before, d, chain)
    ensures ds < |d| && d[ds] == before[ds]
  {
    CoreDistinct(g, d, F, C, chain, h, w, ds);
    forall s | OnChain(g, chain, s) ensures s != ds { AwayFrom(g, |d|, F, chain, ds, s); }
  }

  lemma InfoFile(g: Geometry, d: Disc, F: seq<nat>, C: Chains, chain: seq<nat>, h: Handle, w: nat, ds: nat,
                 x: Sector, before: Disc)
    requires FileCore(g, d, F, C, chain, h, w, ds) && !h.dirty && OnlySynced(g, before, d, chain, ds)
    ensures View(d, h) == d
    ensures g.volbase + 1 < g.fatbase ==>
      FileCore(g, d[g.volbase + 1 := x], F, C, chain, h, g.volbase + 1, ds)
      && OnlySynced(g, before, d[g.volbase + 1 := x], chain, ds)
      && Content(g, View(d[g.volbase + 1 := x], h), chain, h.objsize) == Content(g, View(d, h), chain, h.objsize)
  {
    var s := g.volbase + 1;
    if s < g.fatbase {
      FatIsAway(g, |d|, F, chain, s);
      OtherSector(g, d, F, C, chain, h, w, s, ds, s, x);
    }
  }
}
