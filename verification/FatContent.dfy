/** An open file of a FAT volume as a value: where its bytes are on the disc, and what each step of
    reading and writing does to them. */
module FatContent {
  import opened Bits
  import opened FatDisk
  import opened FatChains

  /** The fields of an open file that its operations change (FIL in system/ff.h). */
  datatype Handle = Handle(
    fptr: nat, objsize: nat, sclust: nat, clust: nat, sect: nat, dirty: bool, buf: Sector)

  // ---------------------------------------------------------------- where a byte is

  /** The chain is long enough for sector `k`. */
  predicate HasSector(g: Geometry, chain: seq<nat>, k: nat)
    requires ClusterSize(g.csize)
  {
    Quot(k, g.csize) < |chain|
  }

  function SectorOf(g: Geometry, chain: seq<nat>, k: nat): (s: nat)
    requires ClusterSize(g.csize)
  {
    if HasSector(g, chain, k) then Base(g, chain[Quot(k, g.csize)]) + Rem(k, g.csize) else 0
  }

  function SectorBytes(d: Disc, s: nat): (x: Sector) {
    if s < |d| then d[s] else seq(512, i => 0)
  }

  /** Byte `i` of a file, read off disc `d`. */
  function ByteAt(g: Geometry, d: Disc, chain: seq<nat>, i: nat): (b: Byte)
    requires ClusterSize(g.csize)
  {
    SectorBytes(d, SectorOf(g, chain, i / SS))[i % SS]
  }

  /** The bytes of a file of `size` bytes. */
  function Content(g: Geometry, d: Disc, chain: seq<nat>, size: nat): (x: seq<Byte>)
    requires ClusterSize(g.csize)
    ensures |x| == size && forall i :: 0 <= i < size ==> x[i] == ByteAt(g, d, chain, i)
  {
    seq(size, i requires 0 <= i < size => ByteAt(g, d, chain, i))
  }

  /** The disc under the file's sector buffer. */
  function View(d: Disc, h: Handle): (v: Disc)
    ensures |v| == |d|
  {
    if h.dirty && h.sect < |d| then d[h.sect := h.buf] else d
  }

  // ---------------------------------------------------------------- what an open file keeps

  predicate OnChain(g: Geometry, chain: seq<nat>, s: nat) {
    exists c :: c in chain && InCluster(g, c, s)
  }

  /** Sector `s` is neither in the file nor in a free cluster. */
  ghost predicate Away(g: Geometry, F: seq<nat>, chain: seq<nat>, s: nat) {
    forall c :: IsCluster(F, c) && InCluster(g, c, s) ==> F[c] != 0 && c !in chain
  }

  /** `chain` is that of the first cluster `sclust`, or empty. */
  ghost predicate StartOk(C: Chains, sclust: nat, chain: seq<nat>) {
    if sclust == 0 then chain == [] else sclust in C && chain == C[sclust]
  }

  ghost predicate SizeOk(g: Geometry, chain: seq<nat>, size: nat)
    requires ClusterSize(g.csize)
  {
    size < 0x1_0000_0000 && (size > 0 ==> HasSector(g, chain, (size - 1) / SS))
  }

  /** The current cluster and sector are those of the read/write pointer. */
  ghost predicate CursorOk(g: Geometry, chain: seq<nat>, fptr: nat, clust: nat, sect: nat)
    requires ClusterSize(g.csize)
  {
    && (fptr > 0 ==> HasSector(g, chain, (fptr - 1) / SS) && clust == chain[Quot((fptr - 1) / SS, g.csize)])
    && (fptr % SS != 0 ==> sect == SectorOf(g, chain, fptr / SS))
  }

  /** The sector buffer shows its sector, and is dirty only for a sector of the file. */
  ghost predicate BufferOk(g: Geometry, d: Disc, chain: seq<nat>, sect: nat, dirty: bool, buf: Sector) {
    && (sect != 0 ==> g.database <= sect < |d| && (!dirty ==> d[sect] == buf))
    && (dirty ==> OnChain(g, chain, sect) && sect != 0)
  }

  /** All clusters of the file are data clusters and appear once. */
  ghost predicate Distinct(g: Geometry, chain: seq<nat>) {
    && (forall j :: 0 <= j < |chain| ==> 2 <= chain[j] < g.nFatent)
    && (forall i, j :: 0 <= i < j < |chain| ==> chain[i] != chain[j])
  }

  lemma ChainDistinct(g: Geometry, F: seq<nat>, chain: seq<nat>)
    requires |F| == g.nFatent && (chain == [] || IsChain(F, chain))
    ensures Distinct(g, chain)
  {
    forall j | 0 <= j < |chain| ensures 2 <= chain[j] < g.nFatent { assert LinkAt(F, chain, j); }
    forall i, j | 0 <= i < j < |chain| ensures chain[i] != chain[j] { Acyclic(F, chain, i, j); }
  }

  /** A sector of the file is a data sector of one of its clusters. */
  lemma SectorInside(g: Geometry, n: nat, chain: seq<nat>, k: nat)
    requires GeometryOk(g, n) && Distinct(g, chain) && HasSector(g, chain, k)
    ensures g.database <= SectorOf(g, chain, k) < n
    ensures InCluster(g, chain[Quot(k, g.csize)], SectorOf(g, chain, k))
    ensures OnChain(g, chain, SectorOf(g, chain, k))
  {
    var c := chain[Quot(k, g.csize)];
    assert InCluster(g, c, SectorOf(g, chain, k));
    ClusterInside(g, n, c, SectorOf(g, chain, k));
    assert c in chain;
  }

  /** Different sectors of a file are different sectors of the disc. */
  lemma SectorsDiffer(g: Geometry, n: nat, chain: seq<nat>, k: nat, l: nat)
    requires GeometryOk(g, n) && Distinct(g, chain) && HasSector(g, chain, k) && HasSector(g, chain, l)
    requires SectorOf(g, chain, k) == SectorOf(g, chain, l)
    ensures k == l
  {
    SectorInside(g, n, chain, k);
    SectorInside(g, n, chain, l);
    var i, j := Quot(k, g.csize), Quot(l, g.csize);
    ClustersApart(g, chain[i], chain[j], SectorOf(g, chain, k));
    QuotRemUnique(k, l, g.csize);
  }

  /** Sectors of one cluster follow each other. */
  lemma NextSectors(g: Geometry, chain: seq<nat>, k: nat, j: nat)
    requires ClusterSize(g.csize) && HasSector(g, chain, k) && Rem(k, g.csize) + j < g.csize
    ensures HasSector(g, chain, k + j) && SectorOf(g, chain, k + j) == SectorOf(g, chain, k) + j
  {
    QuotPlus(k, g.csize, j);
  }

  // ---------------------------------------------------------------- frames

  /** Discs that agree on the sectors of the file hold the same content. */
  lemma ContentFrame(g: Geometry, n: nat, d: Disc, e: Disc, chain: seq<nat>, longer: seq<nat>, size: nat)
    requires GeometryOk(g, n) && |d| == n == |e| && Distinct(g, chain)
    requires |longer| >= |chain| && longer[..|chain|] == chain
    requires SizeOk(g, chain, size)
    requires forall s :: g.database <= s < n && OnChain(g, chain, s) ==> d[s] == e[s]
    ensures Content(g, e, longer, size) == Content(g, d, chain, size)
  {
    forall i | 0 <= i < size ensures ByteAt(g, e, longer, i) == ByteAt(g, d, chain, i) {
      QuotMono(i / SS, (size - 1) / SS, g.csize);
      SectorInside(g, n, chain, i / SS);
      assert longer[Quot(i / SS, g.csize)] == chain[Quot(i / SS, g.csize)];
    }
  }

  lemma Prefix(g: Geometry, d: Disc, chain: seq<nat>, size: nat, less: nat)
    requires ClusterSize(g.csize) && less <= size
    ensures Content(g, d, chain, less) == Content(g, d, chain, size)[..less]
  {}

  lemma SmallerSize(g: Geometry, chain: seq<nat>, size: nat, less: nat)
    requires ClusterSize(g.csize) && SizeOk(g, chain, size) && less <= size
    ensures SizeOk(g, chain, less)
  {
    if less > 0 { QuotMono((less - 1) / SS, (size - 1) / SS, g.csize); }
  }

  // ---------------------------------------------------------------- replacing bytes

  /** `s` with the bytes from `at` on replaced by `x`, growing as needed. */
  function Splice(s: seq<Byte>, at: nat, x: seq<Byte>): (r: seq<Byte>)
    requires at <= |s|
    ensures |r| == if at + |x| > |s| then at + |x| else |s|
    ensures forall i :: 0 <= i < |r| ==> r[i] == if at <= i < at + |x| then x[i - at] else s[i]
  {
    s[..at] + x + (if at + |x| < |s| then s[at + |x|..] else [])
  }

  lemma SpliceSplice(s: seq<Byte>, at: nat, x: seq<Byte>, y: seq<Byte>)
    requires at <= |s|
    ensures Splice(Splice(s, at, x), at + |x|, y) == Splice(s, at, x + y)
  {}

  lemma SpliceNothing(s: seq<Byte>, at: nat)
    requires at <= |s|
    ensures Splice(s, at, []) == s
  {}

  /** `w` is `v` with the bytes `x` at offset `at` of the file, as far as its first `more` bytes go. */
  ghost predicate Rewritten(g: Geometry, v: Disc, w: Disc, chain: seq<nat>, at: nat, x: seq<Byte>, more: nat)
    requires ClusterSize(g.csize)
  {
    forall i :: 0 <= i < more ==>
      ByteAt(g, w, chain, i) == if at <= i < at + |x| then x[i - at] else ByteAt(g, v, chain, i)
  }

  function Max(a: nat, b: nat): (r: nat) { if a > b then a else b }

  lemma RewrittenContent(g: Geometry, v: Disc, w: Disc, chain: seq<nat>, at: nat, x: seq<Byte>, size: nat)
    requires ClusterSize(g.csize) && at <= size && Rewritten(g, v, w, chain, at, x, Max(at + |x|, size))
    ensures Content(g, w, chain, Max(at + |x|, size)) == Splice(Content(g, v, chain, size), at, x)
  {
    var more := Max(at + |x|, size);
    var r := Splice(Content(g, v, chain, size), at, x);
    forall i | 0 <= i < more ensures Content(g, w, chain, more)[i] == r[i] {
      assert ByteAt(g, w, chain, i) == if at <= i < at + |x| then x[i - at] else ByteAt(g, v, chain, i);
    }
  }

  /** The file has all sectors up to that of the last byte. */
  lemma AllSectors(g: Geometry, chain: seq<nat>, more: nat, i: nat)
    requires ClusterSize(g.csize) && SizeOk(g, chain, more) && i < more
    ensures HasSector(g, chain, i / SS)
  {
    EarlierSector(g, chain, i, more - 1);
  }

  lemma EarlierSector(g: Geometry, chain: seq<nat>, i: nat, j: nat)
    requires ClusterSize(g.csize) && i <= j && HasSector(g, chain, j / SS)
    ensures HasSector(g, chain, i / SS)
  {
    QuotMono(i / SS, j / SS, g.csize);
  }

  /** Patching one sector of the file rewrites exactly those bytes. */
  lemma PatchRewrites(g: Geometry, v: Disc, w: Disc, chain: seq<nat>, k: nat, o: nat, x: seq<Byte>, more: nat)
    requires GeometryOk(g, |v|) && Distinct(g, chain) && HasSector(g, chain, k) && o + |x| <= SS
    requires SizeOk(g, chain, more) && SectorOf(g, chain, k) < |v|
    requires w == v[SectorOf(g, chain, k) := Patch(v[SectorOf(g, chain, k)], o, x)]
    ensures Rewritten(g, v, w, chain, SS * k + o, x, more)
  {
    var at := SS * k + o;
    forall i | 0 <= i < more
      ensures ByteAt(g, w, chain, i) == if at <= i < at + |x| then x[i - at] else ByteAt(g, v, chain, i)
    {
      AllSectors(g, chain, more, i);
      PatchedAt(g, v, w, chain, k, o, x, i);
    }
  }

  lemma PatchedAt(g: Geometry, v: Disc, w: Disc, chain: seq<nat>, k: nat, o: nat, x: seq<Byte>, i: nat)
    requires GeometryOk(g, |v|) && Distinct(g, chain) && HasSector(g, chain, k) && HasSector(g, chain, i / SS)
    requires o + |x| <= SS && SectorOf(g, chain, k) < |v|
    requires w == v[SectorOf(g, chain, k) := Patch(v[SectorOf(g, chain, k)], o, x)]
    ensures ByteAt(g, w, chain, i)
         == if SS * k + o <= i < SS * k + o + |x| then x[i - (SS * k + o)] else ByteAt(g, v, chain, i)
  {
    var s := SectorOf(g, chain, k);
    if SectorOf(g, chain, i / SS) == s { SectorsDiffer(g, |v|, chain, i / SS, k); }
    if i / SS == k { assert i - (SS * k + o) == i % SS - o; }
  }

  /** At the growing edge of the file the rest of the sector may hold anything. */
  lemma EdgeRewrites(g: Geometry, v: Disc, w: Disc, chain: seq<nat>, k: nat, x: seq<Byte>, junk: Sector)
    requires GeometryOk(g, |v|) && Distinct(g, chain) && HasSector(g, chain, k) && |x| <= SS
    requires SizeOk(g, chain, SS * k + |x|) && SectorOf(g, chain, k) < |v|
    requires w == v[SectorOf(g, chain, k) := Patch(junk, 0, x)]
    ensures Rewritten(g, v, w, chain, SS * k, x, SS * k + |x|)
  {
    var s := SectorOf(g, chain, k);
    forall i | 0 <= i < SS * k + |x|
      ensures ByteAt(g, w, chain, i) == if SS * k <= i < SS * k + |x| then x[i - SS * k] else ByteAt(g, v, chain, i)
    {
      AllSectors(g, chain, SS * k + |x|, i);
      if SectorOf(g, chain, i / SS) == s { SectorsDiffer(g, |v|, chain, i / SS, k); }
      if i / SS == k { assert i - SS * k == i % SS; }
    }
  }

  /** Writing a run of whole sectors within one cluster rewrites exactly those bytes. */
  lemma RunRewrites(g: Geometry, v: Disc, chain: seq<nat>, k: nat, n: nat, x: seq<Byte>, more: nat)
    requires GeometryOk(g, |v|) && Distinct(g, chain) && HasSector(g, chain, k) && SizeOk(g, chain, more)
    requires 0 < n && Rem(k, g.csize) + n <= g.csize && |x| == SS * n
    ensures var s := SectorOf(g, chain, k);
      s + n <= |v| && Rewritten(g, v, Written(v, s, n, x), chain, SS * k, x, more)
  {
    var s := SectorOf(g, chain, k);
    NextSectors(g, chain, k, n - 1);
    SectorInside(g, |v|, chain, k + n - 1);
    forall i | 0 <= i < more
      ensures ByteAt(g, Written(v, s, n, x), chain, i)
           == if SS * k <= i < SS * k + |x| then x[i - SS * k] else ByteAt(g, v, chain, i)
    {
      AllSectors(g, chain, more, i);
      RunByte(g, v, chain, k, n, x, i);
    }
  }

  lemma RunByte(g: Geometry, v: Disc, chain: seq<nat>, k: nat, n: nat, x: seq<Byte>, i: nat)
    requires GeometryOk(g, |v|) && Distinct(g, chain) && HasSector(g, chain, k) && HasSector(g, chain, i / SS)
    requires 0 < n && Rem(k, g.csize) + n <= g.csize && |x| == SS * n && SectorOf(g, chain, k) + n <= |v|
    ensures ByteAt(g, Written(v, SectorOf(g, chain, k), n, x), chain, i)
         == if SS * k <= i < SS * k + |x| then x[i - SS * k] else ByteAt(g, v, chain, i)
  {
    var l := i / SS;
    var s, t := SectorOf(g, chain, k), SectorOf(g, chain, l);
    RunIndex(g, |v|, chain, k, n, l);
    WrittenByte(v, s, n, x, t, i % SS);
    if s <= t < s + n { assert SS * (t - s) + i % SS == i - SS * k; }
  }

  lemma WrittenByte(v: Disc, s: nat, n: nat, x: seq<Byte>, t: nat, o: nat)
    requires s + n <= |v| && |x| == SS * n && t < |v| && o < SS
    ensures s <= t < s + n ==> 0 <= SS * (t - s) + o < |x|
    ensures Written(v, s, n, x)[t][o] == if s <= t < s + n then x[SS * (t - s) + o] else v[t][o]
  {}

  /** The run takes in exactly the sectors k .. k+n-1 of the file. */
  lemma RunIndex(g: Geometry, size: nat, chain: seq<nat>, k: nat, n: nat, l: nat)
    requires GeometryOk(g, size) && Distinct(g, chain) && HasSector(g, chain, k) && HasSector(g, chain, l)
    requires 0 < n && Rem(k, g.csize) + n <= g.csize
    ensures SectorOf(g, chain, l) < size
    ensures var s, t := SectorOf(g, chain, k), SectorOf(g, chain, l);
      (s <= t < s + n <==> k <= l < k + n) && (k <= l < k + n ==> t - s == l - k)
  {
    var s, t := SectorOf(g, chain, k), SectorOf(g, chain, l);
    SectorInside(g, size, chain, l);
    if s <= t < s + n {
      NextSectors(g, chain, k, t - s);
      SectorsDiffer(g, size, chain, l, k + (t - s));
    }
    if k <= l < k + n { NextSectors(g, chain, k, l - k); }
  }

  // ---------------------------------------------------------------- reading

  /** Byte `o` of sector `k` of the file. */
  lemma ByteOfSector(g: Geometry, v: Disc, chain: seq<nat>, k: nat, o: nat)
    requires ClusterSize(g.csize) && o < SS
    ensures ByteAt(g, v, chain, SS * k + o) == SectorBytes(v, SectorOf(g, chain, k))[o]
  {
    assert (SS * k + o) / SS == k && (SS * k + o) % SS == o;
  }

  /** A run of whole sectors within one cluster, read off the disc, is a stretch of the content. */
  lemma RunReads(g: Geometry, v: Disc, chain: seq<nat>, k: nat, n: nat, size: nat)
    requires GeometryOk(g, |v|) && Distinct(g, chain) && HasSector(g, chain, k)
    requires Rem(k, g.csize) + n <= g.csize && 0 < n && SS * k + SS * n <= size
    ensures var s := SectorOf(g, chain, k);
      s + n <= |v| && Flat(v, s, n) == Content(g, v, chain, size)[SS * k..SS * k + SS * n]
  {
    var s := SectorOf(g, chain, k);
    NextSectors(g, chain, k, n - 1);
    SectorInside(g, |v|, chain, k + n - 1);
    var x, y := Flat(v, s, n), Content(g, v, chain, size)[SS * k..SS * k + SS * n];
    forall i | 0 <= i < SS * n ensures x[i] == y[i] {
      RunReadsByte(g, v, chain, k, n, i);
      assert y[i] == ByteAt(g, v, chain, SS * k + i);
    }
  }

  lemma RunReadsByte(g: Geometry, v: Disc, chain: seq<nat>, k: nat, n: nat, i: nat)
    requires ClusterSize(g.csize) && HasSector(g, chain, k) && Rem(k, g.csize) + n <= g.csize && i < SS * n
    requires SectorOf(g, chain, k) + n <= |v|
    ensures v[SectorOf(g, chain, k) + i / SS][i % SS] == ByteAt(g, v, chain, SS * k + i)
  {
    RunReadsAt(g, v, chain, k, n, i / SS, i % SS);
    assert SS * (k + i / SS) + i % SS == SS * k + i;
  }

  lemma RunReadsAt(g: Geometry, v: Disc, chain: seq<nat>, k: nat, n: nat, j: nat, o: nat)
    requires ClusterSize(g.csize) && HasSector(g, chain, k) && Rem(k, g.csize) + n <= g.csize && j < n && o < SS
    requires SectorOf(g, chain, k) + n <= |v|
    ensures v[SectorOf(g, chain, k) + j][o] == ByteAt(g, v, chain, SS * (k + j) + o)
  {
    NextSectors(g, chain, k, j);
    ByteOfSector(g, v, chain, k + j, o);
  }

  lemma PartReads(g: Geometry, v: Disc, chain: seq<nat>, k: nat, o: nat, n: nat, size: nat)
    requires GeometryOk(g, |v|) && Distinct(g, chain) && HasSector(g, chain, k)
    requires o + n <= SS && SS * k + o + n <= size
    ensures var s := SectorOf(g, chain, k);
      s < |v| && v[s][o..o + n] == Content(g, v, chain, size)[SS * k + o..SS * k + o + n]
  {
    var s := SectorOf(g, chain, k);
    SectorInside(g, |v|, chain, k);
    var x, y := v[s][o..o + n], Content(g, v, chain, size)[SS * k + o..SS * k + o + n];
    forall i | 0 <= i < n ensures x[i] == y[i] {
      ByteOfSector(g, v, chain, k, o + i);
      assert y[i] == ByteAt(g, v, chain, SS * k + (o + i));
    }
  }

  /** Replacing the dirty sector in a run read off the medium gives the run as the file sees it. */
  lemma RunUnderBuffer(d: Disc, h: Handle, s: nat, n: nat)
    requires s + n <= |d| && h.dirty && s <= h.sect < s + n
    ensures var j := h.sect - s;
      Flat(d, s, n)[..SS * j] + h.buf + Flat(d, s, n)[SS * j + SS..] == Flat(View(d, h), s, n)
  {
    var j := h.sect - s;
    var x, y := Flat(d, s, n), Flat(View(d, h), s, n);
    var z := x[..SS * j] + h.buf + x[SS * j + SS..];
    assert |z| == |y|;
    forall i | 0 <= i < |z| ensures z[i] == y[i] {
      if SS * j <= i < SS * j + SS { assert i / SS == j && i % SS == i - SS * j; }
    }
  }

  lemma RunBesideBuffer(d: Disc, h: Handle, s: nat, n: nat)
    requires s + n <= |d| && !(h.dirty && s <= h.sect < s + n)
    ensures Flat(d, s, n) == Flat(View(d, h), s, n)
  {}
}
