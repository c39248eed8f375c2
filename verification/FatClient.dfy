/** A program using one open file: any sequence of calls behaves as on a plain array of bytes with a cursor,
    and what is closed can be read back by opening it again. */
module FatClient {
  import opened Bits
  import opened FatDisk
  import opened FatChains
  import opened FatVolume
  import opened FatContent
  import opened FatSteps
  import opened FatFile
  import opened FatLedger

  /** The file a program sees, with the clusters it has and those free on its volume. */
  datatype Plain = Plain(bytes: seq<Byte>, at: nat, clusters: nat, free: nat)

  /** How the file was opened, and the size of a cluster in bytes. */
  datatype Mode = Mode(read: bool, write: bool, cluster: nat)

  datatype Call = ReadCall(n: nat) | WriteCall(x: seq<Byte>) | SeekCall(ofs: Word) | TruncateCall | SyncCall(tm: Word)

  /** Clusters for `size` bytes. */
  function Needed(size: nat, cluster: nat): (n: nat) {
    if size == 0 || cluster == 0 then 0 else (size - 1) / cluster + 1
  }

  /** The size the file can grow to. */
  function Room(p: Plain, m: Mode): (n: nat) {
    (p.clusters + p.free) * m.cluster
  }

  predicate Sound(p: Plain, m: Mode) {
    p.at <= |p.bytes| < 0x1_0000_0000 && |p.bytes| <= p.clusters * m.cluster
  }

  /** The clusters the file takes and gives back. */
  predicate Clusters(p: Plain, q: Plain, n: nat) {
    q.clusters == n && q.clusters + q.free == p.clusters + p.free
  }

  /** What one call does: how far a write or a seek gets is decided by the 2^32 - 1 limit and by the clusters
      that are free. Only the bytes of a gap made by seeking past the end are arbitrary. */
  predicate Step(p: Plain, c: Call, q: Plain, out: seq<Byte>, m: Mode) {
    Sound(p, m) && Sound(q, m) && (!c.ReadCall? ==> out == [])
    && match c
       case ReadCall(n) =>
         q == p.(at := p.at + |out|) && out == p.bytes[p.at..q.at]
         && |out| == if m.read then Min(n, |p.bytes| - p.at) else 0
       case WriteCall(x) =>
         var w := if m.write then Min(Min(|x|, 0xFFFF_FFFF - p.at), Room(p, m) - p.at) else 0;
         && 0 <= w <= |x| && q.at == p.at + w && q.bytes == Splice(p.bytes, p.at, x[..w])
         && Clusters(p, q, Max(p.clusters, Needed(q.at, m.cluster)))
       case SeekCall(ofs) =>
         && q.at == Min(ofs, if m.write then Room(p, m) else |p.bytes|)
         && |q.bytes| == Max(q.at, |p.bytes|) && q.bytes[..|p.bytes|] == p.bytes
         && Clusters(p, q, Max(p.clusters, Needed(q.at, m.cluster)))
       case TruncateCall =>
         if m.write && p.at < |p.bytes|
         then q.bytes == p.bytes[..p.at] && q.at == p.at && Clusters(p, q, Needed(p.at, m.cluster))
         else q == p
       case SyncCall(_) => q == p
  }

  function Min(a: int, b: int): (r: int) { if a < b then a else b }

  ghost function Seen(f: File): (p: Plain)
    requires f.Core()
    reads f, f.buf, f.fs, f.fs.win
  {
    Plain(f.Data(), f.fptr, |f.chain|, Free(f.fs.Fat()))
  }

  ghost function ModeOf(f: File): (m: Mode)
    reads f, f.fs
  {
    Mode(f.canRead, f.canWrite, ClusterBytes(f.fs.g))
  }

  // ---------------------------------------------------------------- what a call leaves alone

  /** Chain `key` aside, both tables have the same chains. */
  ghost predicate SameBut(C: Chains, D: Chains, key: nat) {
    forall k :: k in C && k != key ==> k in D && D[k] == C[k]
  }

  /** Everything a call may have changed outside the file: its own sectors and its directory entry, its own
      chain, the window. */
  ghost predicate Touched(g: Geometry, d: Disc, e: Disc, C: Chains, D: Chains, key: nat, own: seq<nat>,
                          after: nat, now: seq<nat>, ds: nat, w: nat, w': nat) {
    && |e| == |d| && SameBut(C, D, key) && StartOk(D, after, now) && (after == key || after !in C || now == [])
    && (w' == w || w' < g.database || w' == ds)
    && forall s :: g.database <= s < |d| && s != ds && !OnChain(g, own, s) && !OnChain(g, now, s) ==> e[s] == d[s]
  }

  /** A table and chains that did not change. */
  lemma TouchedNothing(g: Geometry, d: Disc, e: Disc, C: Chains, key: nat, own: seq<nat>, ds: nat, w: nat, w': nat)
    requires OnlyChain(g, d, e, own) && GeometryOk(g, |d|) && StartOk(C, key, own)
    requires w' == w || w' < g.database || w' == ds
    ensures Touched(g, d, e, C, C, key, own, key, own, ds, w, w')
  {}

  /** From what write and seek promise. */
  lemma TouchedSince(g: Geometry, n: nat, o: Origin, e: Disc, D: Chains, own: seq<nat>, after: nat, now: seq<nat>,
                     ds: nat, w': nat)
    requires GeometryOk(g, n) && |o.before| == n && Since(o, g, e, D, w', after, now) && StartOk(D, after, now)
    ensures Touched(g, o.before, e, o.chains, D, o.sclust, own, after, now, ds, o.w, w')
  {}

  lemma TouchedSync(g: Geometry, d: Disc, e: Disc, C: Chains, key: nat, own: seq<nat>, ds: nat, w: nat, w': nat)
    requires OnlySynced(g, d, e, own, ds) && GeometryOk(g, |d|) && StartOk(C, key, own)
    requires w' == w || w' < g.fatbase || w' == ds
    ensures Touched(g, d, e, C, C, key, own, key, own, ds, w, w')
  {}

  lemma TouchedCut(g: Geometry, d: Disc, e: Disc, F: seq<nat>, C: Chains, D: Chains, key: nat, own: seq<nat>,
                   after: nat, now: seq<nat>, ds: nat, w: nat, w': nat)
    requires OnlyChain(g, d, e, own) && GeometryOk(g, |d|) && WellFormed(F, C) && StartOk(C, key, own)
    requires after == (if now == [] then 0 else key) && WindowFrom(g, w, w') && StartOk(D, after, now)
    requires D == Shortened(C, key, now) || D == C
    ensures Touched(g, d, e, C, D, key, own, after, now, ds, w, w')
  {}

  /** Where a call on `f` started: what it changed is measured against. */
  datatype Was = Was(disc: Disc, table: seq<nat>, chains: Chains, chain: seq<nat>, sclust: nat, w: nat)

  ghost function VolumeAt(f: File): (b: Was)
    requires f.Core()
    reads f, f.buf, f.fs, f.fs.win
  {
    Was(f.fs.Disc(), f.fs.Fat(), f.fs.chains, f.chain, f.sclust, f.fs.winsect)
  }

  /** Since `b`, a call on `f` changed no more than it may. */
  ghost predicate Touches(b: Was, f: File)
    requires f.Core()
    reads f, f.buf, f.fs, f.fs.win
  {
    Touched(f.fs.g, b.disc, f.fs.Disc(), b.chains, f.fs.chains, b.sclust, b.chain, f.sclust, f.chain, f.dirSect,
            b.w, f.fs.winsect)
  }

  /** The buffer of the file shows a sector of its own, or nothing yet. */
  ghost predicate Settled(k: File)
    reads k, k.fs
  {
    Current(k.fs.g, k.chain, k.sect)
  }

  // ---------------------------------------------------------------- clusters and bytes

  lemma NeededIs(g: Geometry, size: nat)
    requires ClusterSize(g.csize)
    ensures Needed(size, ClusterBytes(g)) == ClustersFor(g, size)
  {
    if size > 0 { ClusterOf(g, size - 1); }
  }

  /** The bytes needed are there. */
  lemma NeededHold(n: nat, size: nat, cluster: nat)
    requires cluster > 0 && Needed(size, cluster) <= n
    ensures size <= n * cluster
  {
    if size > 0 {
      var q := (size - 1) / cluster;
      assert size - 1 == cluster * q + (size - 1) % cluster;
      Larger(cluster, q + 1, n);
    }
  }

  lemma Larger(cluster: nat, m: nat, n: nat)
    requires m <= n
    ensures cluster * m <= n * cluster
  {
    var k: nat := n - m;
    assert n * cluster == (m + k) * cluster == m * cluster + k * cluster;
  }

  /** Where the last cluster ends. */
  lemma EndAt(g: Geometry, chain: seq<nat>, pos: nat)
    requires ClusterSize(g.csize) && AtEnd(g, chain, pos)
    ensures pos == |chain| * ClusterBytes(g)
  {
    QuotTimes(pos / SS, g.csize);
    assert pos == SS * (pos / SS);
    assert (|chain| * g.csize) * SS == |chain| * (g.csize * SS);
  }

  lemma {:induction false} NoFreeIsZero(F: seq<nat>, k: nat)
    requires k <= |F| && forall c :: 2 <= c < k ==> F[c] != 0
    ensures Zeros(F, k) == 0
  {
    if k > 2 { NoFreeIsZero(F, k - 1); }
  }

  /** The file fits the clusters it has. */
  lemma FileFits(f: File)
    requires f.Valid()
    ensures Sound(Seen(f), ModeOf(f))
  {
    var g, size := f.fs.g, f.objsize;
    ClustersThere(g, f.chain, size, size);
    NeededIs(g, size);
    NeededHold(|f.chain|, size, ClusterBytes(g));
  }

  /** Since `o`, the file's clusters came from the free ones. */
  lemma Booked(F: seq<nat>, C: Chains, a: nat, s: seq<nat>, o: Origin, g: Geometry, d: Disc, w: nat,
               G: seq<nat>, D: Chains, b: nat, t: seq<nat>)
    requires WellFormed(F, C) && StartOk(C, a, s) && WellFormed(G, D) && StartOk(D, b, t) && |F| == |G| >= 2
    requires o.chains == C && o.sclust == a && Since(o, g, d, D, w, b, t)
    ensures |s| + Free(F) == |t| + Free(G)
  {
    NoZeroKey(F, C);
    Ledger(F, C, a, s, G, D, b, t);
  }

  lemma BookedShorter(F: seq<nat>, C: Chains, a: nat, s: seq<nat>, G: seq<nat>, D: Chains, t: seq<nat>)
    requires WellFormed(F, C) && StartOk(C, a, s) && WellFormed(G, D) && |F| == |G| >= 2
    requires D == Shortened(C, a, t) && StartOk(D, if t == [] then 0 else a, t)
    ensures |s| + Free(F) == |t| + Free(G)
  {
    NoZeroKey(F, C);
    Ledger(F, C, a, s, G, D, if t == [] then 0 else a, t);
  }

  /** How far a transfer got: to its end, or to the end of all the clusters there are. */
  lemma GotAsFar(at: nat, goal: nat, got: nat, n: nat, free: nat, n': nat, free': nat, cluster: nat)
    requires at <= got <= goal && n + free == n' + free' && got <= n' * cluster
    requires got < goal ==> free' == 0 && got == n' * cluster
    ensures got == Min(goal, (n + free) * cluster)
  {
    Larger(cluster, n', n + free);
  }

  lemma RoomHolds(p: Plain, m: Mode)
    requires Sound(p, m)
    ensures |p.bytes| <= Room(p, m)
  {
    Larger(m.cluster, p.clusters, p.clusters + p.free);
  }

  // ---------------------------------------------------------------- one call

  method BookedWrite(f: File, x: seq<Byte>) returns (bw: nat)
    requires f.Valid() && |x| < 0x1_0000_0000
    modifies f, f.buf, f.fs, f.fs.win
    ensures f.Valid() && bw <= |x| && f.fptr == old(f.fptr) + bw
    ensures f.Data() == Splice(old(f.Data()), old(f.fptr), x[..bw])
    ensures Clusters(old(Seen(f)), Seen(f), Max(old(|f.chain|), ClustersFor(f.fs.g, f.fptr)))
    ensures f.fptr == Min(old(f.fptr) + (if f.canWrite then Min(|x|, 0xFFFF_FFFF - old(f.fptr)) else 0),
                          Room(old(Seen(f)), ModeOf(f)))
    ensures Touches(old(VolumeAt(f)), f) && (old(Settled(f)) ==> Settled(f))
  {
    ghost var F, C, a, s, o, p := f.fs.Fat(), f.fs.chains, f.sclust, f.chain, f.Start(), Seen(f);
    var res;
    res, bw := f.Write(x);
    TouchedSince(f.fs.g, |o.before|, o, f.fs.Disc(), f.fs.chains, s, f.sclust, f.chain, f.dirSect, f.fs.winsect);
    Booked(F, C, a, s, o, f.fs.g, f.fs.Disc(), f.fs.winsect, f.fs.Fat(), f.fs.chains, f.sclust, f.chain);
    Reached(f, p.at, p.at + (if f.canWrite then Min(|x|, 0xFFFF_FFFF - p.at) else 0), p);
  }

  lemma WriteIsStep(p: Plain, q: Plain, x: seq<Byte>, w: nat, m: Mode)
    requires Sound(p, m) && Sound(q, m) && w <= |x| && q.at == p.at + w && q.bytes == Splice(p.bytes, p.at, x[..w])
    requires Clusters(p, q, Max(p.clusters, Needed(q.at, m.cluster)))
    requires q.at == Min(p.at + (if m.write then Min(|x|, 0xFFFF_FFFF - p.at) else 0), Room(p, m))
    ensures Step(p, WriteCall(x), q, [], m)
  {}

  method PerformWrite(f: File, x: seq<Byte>)
    requires f.Valid() && |x| < 0x1_0000_0000
    modifies f, f.buf, f.fs, f.fs.win
    ensures f.Valid() && Step(old(Seen(f)), WriteCall(x), Seen(f), [], ModeOf(f))
    ensures Touches(old(VolumeAt(f)), f) && (old(Settled(f)) ==> Settled(f))
  {
    FileFits(f);
    ghost var p := Seen(f);
    var bw := BookedWrite(f, x);
    FileFits(f);
    NeededIs(f.fs.g, f.fptr);
    WriteIsStep(p, Seen(f), x, bw, ModeOf(f));
  }

  lemma Reached(f: File, at: nat, goal: nat, p: Plain)
    requires f.Valid() && at <= f.fptr <= goal
    requires p.clusters + p.free == |f.chain| + Free(f.fs.Fat())
    requires f.fptr < goal ==> NoFree(f.fs.Fat()) && AtEnd(f.fs.g, f.chain, f.fptr)
    ensures f.fptr == Min(goal, Room(p, ModeOf(f)))
  {
    FileFits(f);
    if f.fptr < goal {
      EndAt(f.fs.g, f.chain, f.fptr);
      NoFreeIsZero(f.fs.Fat(), |f.fs.Fat()|);
    }
    GotAsFar(at, goal, f.fptr, p.clusters, p.free, |f.chain|, Free(f.fs.Fat()), ClusterBytes(f.fs.g));
  }

  method PerformSeek(f: File, ofs: Word)
    requires f.Valid()
    modifies f, f.buf, f.fs, f.fs.win
    ensures f.Valid() && Step(old(Seen(f)), SeekCall(ofs), Seen(f), [], ModeOf(f))
    ensures Touches(old(VolumeAt(f)), f) && (old(Settled(f)) ==> Settled(f))
  {
    FileFits(f);
    ghost var F, C, a, s, o, p := f.fs.Fat(), f.fs.chains, f.sclust, f.chain, f.Start(), Seen(f);
    f.Lseek(ofs);
    TouchedSince(f.fs.g, |o.before|, o, f.fs.Disc(), f.fs.chains, s, f.sclust, f.chain, f.dirSect, f.fs.winsect);
    FileFits(f);
    Booked(F, C, a, s, o, f.fs.g, f.fs.Disc(), f.fs.winsect, f.fs.Fat(), f.fs.chains, f.sclust, f.chain);
    Reached(f, 0, if f.canWrite then ofs else Min(ofs, |p.bytes|), p);
    RoomHolds(p, ModeOf(f));
    NeededIs(f.fs.g, f.fptr);
  }

  method BookedTruncate(f: File)
    requires f.Valid()
    modifies f, f.buf, f.fs, f.fs.win
    ensures f.Valid() && f.fptr == old(f.fptr)
    ensures var p := old(Seen(f));
      if f.canWrite && p.at < |p.bytes|
      then f.Data() == p.bytes[..p.at] && Clusters(p, Seen(f), ClustersFor(f.fs.g, p.at)) else Seen(f) == p
    ensures Touches(old(VolumeAt(f)), f) && (old(Settled(f)) && old(f.fptr) % SS != 0 ==> Settled(f))
  {
    ghost var F, C, a, s, p, b := f.fs.Fat(), f.fs.chains, f.sclust, f.chain, Seen(f), VolumeAt(f);
    var _ := f.Truncate();
    TouchedCut(f.fs.g, b.disc, f.fs.Disc(), F, C, f.fs.chains, a, s, f.sclust, f.chain, f.dirSect, b.w, f.fs.winsect);
    if f.fptr % SS != 0 { CursorSettled(f); }
    if f.canWrite && p.at < |p.bytes| { CutBooked(f, F, C, a, s, p); }
  }

  lemma CutBooked(f: File, F: seq<nat>, C: Chains, a: nat, s: seq<nat>, p: Plain)
    requires f.Valid() && WellFormed(F, C) && StartOk(C, a, s) && |F| == |f.fs.Fat()|
    requires p.clusters == |s| && p.free == Free(F) && ClustersFor(f.fs.g, p.at) <= |s|
    requires f.chain == s[..ClustersFor(f.fs.g, p.at)] && f.fs.chains == Shortened(C, a, f.chain)
    requires f.sclust == (if f.chain == [] then 0 else a)
    ensures Clusters(p, Seen(f), ClustersFor(f.fs.g, p.at))
  {
    BookedShorter(F, C, a, s, f.fs.Fat(), f.fs.chains, f.chain);
  }

  method PerformTruncate(f: File)
    requires f.Valid()
    modifies f, f.buf, f.fs, f.fs.win
    ensures f.Valid() && Step(old(Seen(f)), TruncateCall, Seen(f), [], ModeOf(f))
    ensures Touches(old(VolumeAt(f)), f) && (old(Settled(f)) && old(f.fptr) % SS != 0 ==> Settled(f))
  {
    FileFits(f);
    BookedTruncate(f);
    FileFits(f);
    NeededIs(f.fs.g, f.fptr);
  }

  lemma CursorSettled(f: File)
    requires f.Valid() && f.fptr % SS != 0
    ensures Settled(f)
  {
    CoreDistinct(f.fs.g, f.fs.Disc(), f.fs.Fat(), f.fs.chains, f.chain, f.H(), f.fs.winsect, f.dirSect);
    assert (f.fptr - 1) / SS == f.fptr / SS;
    SectorInside(f.fs.g, |f.fs.disk|, f.chain, f.fptr / SS);
  }

  method PerformRead(f: File, n: nat) returns (out: seq<Byte>)
    requires f.Valid()
    modifies f, f.buf, f.fs, f.fs.win
    ensures f.Valid() && Step(old(Seen(f)), ReadCall(n), Seen(f), out, ModeOf(f))
    ensures Touches(old(VolumeAt(f)), f) && (old(Settled(f)) ==> Settled(f))
  {
    FileFits(f);
    ghost var b := VolumeAt(f);
    var res;
    res, out := f.Read(n);
    TouchedNothing(f.fs.g, b.disc, f.fs.Disc(), b.chains, f.sclust, f.chain, f.dirSect, b.w, f.fs.winsect);
    FileFits(f);
  }

  method PerformSync(f: File, tm: Word)
    requires f.Valid() && f.dirOfs + 32 <= SS
    modifies f, f.buf, f.fs, f.fs.win
    ensures f.Valid() && Step(old(Seen(f)), SyncCall(tm), Seen(f), [], ModeOf(f))
    ensures Touches(old(VolumeAt(f)), f) && (old(Settled(f)) ==> Settled(f))
  {
    FileFits(f);
    ghost var b := VolumeAt(f);
    f.Sync(tm);
    TouchedSync(f.fs.g, b.disc, f.fs.Disc(), b.chains, f.sclust, f.chain, f.dirSect, b.w, f.fs.winsect);
  }

  /** Each call is a step of the plain file. */
  method Perform(f: File, c: Call) returns (out: seq<Byte>)
    requires f.Valid() && f.dirOfs + 32 <= SS && (c.WriteCall? ==> |c.x| < 0x1_0000_0000)
    modifies f, f.buf, f.fs, f.fs.win
    ensures f.Valid()
    ensures Step(old(Seen(f)), c, Seen(f), out, ModeOf(f))
    ensures Touches(old(VolumeAt(f)), f)
    ensures old(Settled(f)) && (c.TruncateCall? ==> old(f.fptr) % SS != 0) ==> Settled(f)
  {
    out := [];
    match c {
      case ReadCall(n) => out := PerformRead(f, n);
      case WriteCall(x) => PerformWrite(f, x);
      case SeekCall(ofs) => PerformSeek(f, ofs);
      case TruncateCall => PerformTruncate(f);
      case SyncCall(tm) => PerformSync(f, tm);
    }
  }

  // ---------------------------------------------------------------- whole runs

  /** A run: the files before and after each call, and what the reads returned. */
  datatype Run = Run(files: seq<Plain>, outs: seq<seq<Byte>>)

  predicate IsRun(r: Run, calls: seq<Call>, m: Mode) {
    && |r.files| == |calls| + 1 && |r.outs| == |calls|
    && forall i :: 0 <= i < |calls| ==> RunStep(r, calls, i, m)
  }

  predicate RunStep(r: Run, calls: seq<Call>, i: nat, m: Mode)
    requires i < |calls| && |r.files| == |calls| + 1 && |r.outs| == |calls|
  {
    Step(r.files[i], calls[i], r.files[i + 1], r.outs[i], m)
  }

  /** Any sequence of calls is a run of the plain file. */
  method Execute(f: File, calls: seq<Call>) returns (outs: seq<seq<Byte>>, ghost r: Run)
    requires f.Valid() && f.dirOfs + 32 <= SS
    requires forall i :: 0 <= i < |calls| && calls[i].WriteCall? ==> |calls[i].x| < 0x1_0000_0000
    modifies f, f.buf, f.fs, f.fs.win
    ensures f.Valid() && IsRun(r, calls, ModeOf(f)) && r.outs == outs
    ensures r.files[0] == old(Seen(f)) && r.files[|calls|] == Seen(f)
  {
    outs := [];
    r := Run([Seen(f)], []);
    var i := 0;
    while i < |calls|
      invariant 0 <= i <= |calls| && f.Valid()
      invariant IsRun(r, calls[..i], ModeOf(f)) && r.outs == outs
      invariant r.files[0] == old(Seen(f)) && r.files[i] == Seen(f)
    {
      var out := Perform(f, calls[i]);
      Longer(r, calls, i, Seen(f), out, ModeOf(f));
      r := Run(r.files + [Seen(f)], r.outs + [out]);
      outs := outs + [out];
      i := i + 1;
    }
    assert calls[..|calls|] == calls;
  }

  lemma Longer(r: Run, calls: seq<Call>, i: nat, q: Plain, out: seq<Byte>, m: Mode)
    requires i < |calls| && IsRun(r, calls[..i], m) && Step(r.files[i], calls[i], q, out, m)
    ensures IsRun(Run(r.files + [q], r.outs + [out]), calls[..i + 1], m)
  {
    var t := Run(r.files + [q], r.outs + [out]);
    var upTo := calls[..i + 1];
    forall j | 0 <= j < i + 1 ensures RunStep(t, upTo, j, m) {
      if j < i { assert RunStep(r, calls[..i], j, m); }
    }
  }

  /** Over any run, the clusters of the file and the free ones add up to the same. */
  lemma {:induction false} ClustersConserved(r: Run, calls: seq<Call>, m: Mode, n: nat)
    requires IsRun(r, calls, m) && n <= |calls|
    ensures r.files[n].clusters + r.files[n].free == r.files[0].clusters + r.files[0].free
  {
    if n > 0 {
      ClustersConserved(r, calls, m, n - 1);
      assert RunStep(r, calls, n - 1, m);
    }
  }

  /** Sizes, pointers and amounts transferred depend on nothing but the calls and the size, the pointer, the
      clusters and the free clusters there were at first. */
  predicate Alike(p: Plain, q: Plain) {
    |p.bytes| == |q.bytes| && p.at == q.at && p.clusters == q.clusters && p.free == q.free
  }

  lemma {:induction false} AmountsDetermined(r: Run, t: Run, calls: seq<Call>, m: Mode, n: nat)
    requires IsRun(r, calls, m) && IsRun(t, calls, m) && n <= |calls| && Alike(r.files[0], t.files[0])
    ensures Alike(r.files[n], t.files[n]) && forall i :: 0 <= i < n ==> |r.outs[i]| == |t.outs[i]|
  {
    if n > 0 {
      AmountsDetermined(r, t, calls, m, n - 1);
      assert RunStep(r, calls, n - 1, m) && RunStep(t, calls, n - 1, m);
    }
  }

  /** Call `c`, made with the cursor at `at`, leaves byte `k` alone. */
  predicate Spares(c: Call, at: nat, k: nat) {
    match c
    case WriteCall(x) => k < at || at + |x| <= k
    case TruncateCall => k < at
    case _ => true
  }

  /** Over any run, a byte keeps its value until a write covers it or a cut removes it. */
  lemma {:induction false} BytePersists(r: Run, calls: seq<Call>, m: Mode, k: nat, n: nat)
    requires IsRun(r, calls, m) && n <= |calls| && k < |r.files[0].bytes|
    requires forall i :: 0 <= i < n ==> Spares(calls[i], r.files[i].at, k)
    ensures k < |r.files[n].bytes| && r.files[n].bytes[k] == r.files[0].bytes[k]
  {
    if n > 0 {
      BytePersists(r, calls, m, k, n - 1);
      assert RunStep(r, calls, n - 1, m);
      StepSpares(r.files[n - 1], calls[n - 1], r.files[n], r.outs[n - 1], m, k);
    }
  }

  lemma StepSpares(p: Plain, c: Call, q: Plain, out: seq<Byte>, m: Mode, k: nat)
    requires Step(p, c, q, out, m) && Spares(c, p.at, k) && k < |p.bytes|
    ensures k < |q.bytes| && q.bytes[k] == p.bytes[k]
  {
    if c.SeekCall? { assert q.bytes[..|p.bytes|][k] == p.bytes[k]; }
  }

  /** What was written can be read back: writing, seeking to where it went and reading gives the same bytes, all
      of them if there is room. */
  lemma WriteThenRead(p: Plain, q: Plain, s: Plain, t: Plain, x: seq<Byte>, out: seq<Byte>, m: Mode)
    requires Step(p, WriteCall(x), q, [], m) && m.read && m.write
    requires Step(q, SeekCall(p.at), s, [], m) && Step(s, ReadCall(|x|), t, out, m)
    ensures out == x[..q.at - p.at] + q.bytes[q.at..Min(p.at + |x|, |q.bytes|)]
    ensures p.at + |x| < 0x1_0000_0000 && p.at + |x| <= Room(p, m) ==> out == x
  {
    assert s.bytes == q.bytes by { assert s.bytes[..|q.bytes|] == s.bytes; }
  }

  /** A changed file, closed and opened again from its directory entry, has the same bytes. */
  method CloseAndReopen(f: File, tm: Word) returns (h: File)
    requires f.Valid() && f.modified && f.dirOfs + 32 <= SS
    modifies f, f.fs, f.fs.win
    ensures h.Valid() && h.fs == f.fs && h.fptr == 0
    ensures h.Data() == old(f.Data()) == Content(f.fs.g, f.fs.disk, h.chain, h.objsize)
  {
    ghost var x: Sector := f.fs.Disc()[f.dirSect];
    f.Sync(tm);
    var v := f.fs;
    v.MoveWindow(f.dirSect);
    var e := v.win[..][f.dirOfs..f.dirOfs + 32];
    StartStored(v.g, v.Disc(), v.Fat(), v.chains, f.chain, f.H(), v.winsect, f.dirSect);
    IsLoads(x[f.dirOfs..f.dirOfs + 32], e, v.g.fsType, f.sclust, f.objsize, tm);
    ReopenCore(v.g, v.Disc(), v.Fat(), v.chains, f.chain, f.H(), v.winsect, f.dirSect);
    h := new File(v, LoadStart(e, v.g.fsType), LoadSize(e), f.dirSect, f.dirOfs, f.canRead, f.canWrite, f.chain);
  }

  lemma ReopenCore(g: Geometry, d: Disc, F: seq<nat>, C: Chains, chain: seq<nat>, h: Handle, w: nat, ds: nat)
    requires FileCore(g, d, F, C, chain, h, w, ds)
    ensures FileCore(g, d, F, C, chain, Opened(h.sclust, h.objsize), w, ds)
  {}
}
