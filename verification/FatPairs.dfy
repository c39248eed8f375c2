/** Two files open on one volume: a call on one of them leaves the other's state and bytes as they were,
    although both allocate from the same table through the same window. */
module FatPairs {
  import opened Bits
  import opened FatDisk
  import opened FatChains
  import opened FatContent
  import opened FatSteps
  import opened FatFile
  import opened FatLedger
  import opened FatClient

  /** An entry in use outside chain `key` stays in use. */
  lemma StaysUsed(F: seq<nat>, C: Chains, G: seq<nat>, D: Chains, key: nat, own: seq<nat>, c: nat)
    requires WellFormed(F, C) && WellFormed(G, D) && SameBut(C, D, key) && StartOk(C, key, own) && |F| == |G|
    requires IsCluster(F, c) && F[c] != 0 && c !in own
    ensures G[c] != 0
  {
    OwnedIffUsed(F, C, c);
    var k :| k in C && c in C[k];
    if k == key { ZeroNoKey(F, C, key); }
    assert k in D && c in D[k];
    assert Owned(D, c);
    OwnedIffUsed(G, D, c);
  }

  /** A sector of another file or directory stays away from this one. */
  lemma StaysAway(g: Geometry, F: seq<nat>, C: Chains, G: seq<nat>, D: Chains, key: nat, own: seq<nat>,
                  chain: seq<nat>, s: nat)
    requires WellFormed(F, C) && WellFormed(G, D) && SameBut(C, D, key) && StartOk(C, key, own) && |F| == |G|
    requires Away(g, F, own, s) && Away(g, F, chain, s)
    ensures Away(g, G, chain, s)
  {
    forall c | IsCluster(G, c) && InCluster(g, c, s) ensures G[c] != 0 && c !in chain {
      assert IsCluster(F, c);
      StaysUsed(F, C, G, D, key, own, c);
    }
  }

  /** The clusters of the changed chain that were not in it before were free. */
  lemma NewWereFree(F: seq<nat>, C: Chains, D: Chains, key: nat, own: seq<nat>, after: nat, now: seq<nat>, c: nat)
    requires WellFormed(F, C) && AllApart(D) && SameBut(C, D, key) && StartOk(C, key, own) && StartOk(D, after, now)
    requires after == key || after !in C || now == []
    requires c in now && c !in own && IsCluster(F, c)
    ensures F[c] == 0
  {
    if F[c] != 0 {
      assert Owned(C, c);
      var k :| k in C && c in C[k];
      if k == key { ZeroNoKey(F, C, key); }
      assert false;
    }
  }

  lemma ChangedAway(g: Geometry, F: seq<nat>, C: Chains, G: seq<nat>, D: Chains, key: nat, own: seq<nat>,
                    after: nat, now: seq<nat>, s: nat)
    requires WellFormed(F, C) && WellFormed(G, D) && SameBut(C, D, key) && StartOk(C, key, own) && |F| == |G|
    requires StartOk(D, after, now) && (after == key || after !in C || now == []) && Away(g, F, own, s)
    ensures Away(g, G, now, s)
  {
    forall c | IsCluster(G, c) && InCluster(g, c, s) ensures G[c] != 0 && c !in now {
      assert IsCluster(F, c);
      StaysUsed(F, C, G, D, key, own, c);
      if c in now { NewWereFree(F, C, D, key, own, after, now, c); }
    }
  }

  /** Sectors of another chain are not of this one. */
  lemma OtherSectors(g: Geometry, C: Chains, F: seq<nat>, a: nat, b: nat, s: nat)
    requires |F| == g.nFatent && WellFormed(F, C) && a in C && b in C && a != b && OnChain(g, C[a], s)
    ensures !OnChain(g, C[b], s)
  {
    if OnChain(g, C[b], s) {
      var c :| c in C[a] && InCluster(g, c, s);
      var d :| d in C[b] && InCluster(g, d, s);
      UsedInChain(F, C[a], c);
      UsedInChain(F, C[b], d);
      ClustersApart(g, c, d, s);
    }
  }

  /** What a call on the file with chain `key` does to the volume, as another file needs to know it. */
  ghost predicate Beside(g: Geometry, d: Disc, e: Disc, F: seq<nat>, C: Chains, G: seq<nat>, D: Chains,
                         chain: seq<nat>, start: nat) {
    && |e| == |d| && |F| == |G| && WellFormed(F, C) && WellFormed(G, D)
    && (start != 0 ==> start in D && start in C && D[start] == C[start])
    && forall s :: g.database <= s < |d| && OnChain(g, chain, s) ==> e[s] == d[s]
  }

  /** Then that file is as it was. */
  lemma Undisturbed(g: Geometry, d: Disc, e: Disc, F: seq<nat>, C: Chains, G: seq<nat>, D: Chains,
                    chain: seq<nat>, h: Handle, w: nat, w': nat, ds: nat)
    requires FileOk(g, d, F, C, chain, h, w, ds) && Current(g, chain, h.sect)
    requires Beside(g, d, e, F, C, G, D, chain, h.sclust)
    requires Away(g, G, chain, w') && Away(g, G, chain, ds)
    ensures FileOk(g, e, G, D, chain, h, w', ds)
    ensures Content(g, View(e, h), chain, h.objsize) == Content(g, View(d, h), chain, h.objsize)
  {
    CoreDistinct(g, d, F, C, chain, h, w, ds);
    ContentFrame(g, |d|, View(d, h), View(e, h), chain, chain, h.objsize);
  }

  // ---------------------------------------------------------------- a buffer left behind

  /** The handle without a buffer that shows none of the file's sectors. */
  ghost function Dropped(g: Geometry, chain: seq<nat>, h: Handle): (k: Handle) {
    if Current(g, chain, h.sect) then h else h.(sect := 0)
  }

  /** The file is in order, except that its clean buffer may differ from a sector that is not its own. */
  ghost predicate LooseOk(g: Geometry, d: Disc, F: seq<nat>, C: Chains, chain: seq<nat>, h: Handle, w: nat, ds: nat) {
    && FileOk(g, d, F, C, chain, Dropped(g, chain, h), w, ds)
    && (h.sect != 0 ==> g.database <= h.sect < |d| && h.sect != ds)
  }

  /** What the difference comes to. */
  lemma LooseIff(g: Geometry, d: Disc, F: seq<nat>, C: Chains, chain: seq<nat>, h: Handle, w: nat, ds: nat)
    ensures FileOk(g, d, F, C, chain, h, w, ds)
      <==> LooseOk(g, d, F, C, chain, h, w, ds) && (Current(g, chain, h.sect) || d[h.sect] == h.buf)
  {
    if !Current(g, chain, h.sect) {
      if FileOk(g, d, F, C, chain, h, w, ds) { OffChain(g, d, F, C, chain, h, w, ds); }
      if LooseOk(g, d, F, C, chain, h, w, ds) { OffChain(g, d, F, C, chain, Dropped(g, chain, h), w, ds); }
    }
  }

  /** Such a buffer is met only between sectors. */
  lemma OffChain(g: Geometry, d: Disc, F: seq<nat>, C: Chains, chain: seq<nat>, h: Handle, w: nat, ds: nat)
    requires FileOk(g, d, F, C, chain, h, w, ds) && !OnChain(g, chain, h.sect)
    ensures h.fptr % SS == 0 && !h.dirty
  {
    if h.fptr % SS != 0 {
      CoreDistinct(g, d, F, C, chain, h, w, ds);
      assert (h.fptr - 1) / SS == h.fptr / SS;
      SectorInside(g, |d|, chain, h.fptr / SS);
    }
  }

  lemma LooseUndisturbed(g: Geometry, d: Disc, e: Disc, F: seq<nat>, C: Chains, G: seq<nat>, D: Chains,
                         chain: seq<nat>, h: Handle, w: nat, w': nat, ds: nat)
    requires LooseOk(g, d, F, C, chain, h, w, ds) && Beside(g, d, e, F, C, G, D, chain, h.sclust)
    requires Away(g, G, chain, w') && Away(g, G, chain, ds)
    ensures LooseOk(g, e, G, D, chain, h, w', ds)
    ensures Content(g, View(e, h), chain, h.objsize) == Content(g, View(d, h), chain, h.objsize)
  {
    var k := Dropped(g, chain, h);
    if h != k { assert !k.dirty; }
    Undisturbed(g, d, e, F, C, G, D, chain, k, w, w', ds);
  }

  /** A waiting file stays valid whatever happens beside it if and only if its buffer is empty or shows a sector
      of its own. */
  lemma SettledExactly(g: Geometry, d: Disc, F: seq<nat>, C: Chains, chain: seq<nat>, h: Handle, w: nat, ds: nat)
    requires FileOk(g, d, F, C, chain, h, w, ds)
    ensures Current(g, chain, h.sect) <==>
      forall e: Disc :: Beside(g, d, e, F, C, F, C, chain, h.sclust) ==> FileOk(g, e, F, C, chain, h, w, ds)
  {
    if Current(g, chain, h.sect) {
      forall e: Disc | Beside(g, d, e, F, C, F, C, chain, h.sclust) ensures FileOk(g, e, F, C, chain, h, w, ds) {
        Undisturbed(g, d, e, F, C, F, C, chain, h, w, w, ds);
      }
    } else {
      OffChain(g, d, F, C, chain, h, w, ds);
      var x: Sector := h.buf[0 := if h.buf[0] == 0 then 1 else 0];
      assert x[0] != h.buf[0];
      var e := d[h.sect := x];
      assert Beside(g, d, e, F, C, F, C, chain, h.sclust) && !FileOk(g, e, F, C, chain, h, w, ds);
    }
  }

  // ---------------------------------------------------------------- two files

  /** The file is in order but for a buffer left behind. */
  ghost predicate Loose(k: File)
    reads k, k.buf, k.fs, k.fs.win
  {
    && k.fs.Valid() && k.buf.Length == 512 && k.buf != k.fs.win
    && LooseOk(k.fs.g, k.fs.Disc(), k.fs.Fat(), k.fs.chains, k.chain, k.H(), k.fs.winsect, k.dirSect)
  }

  /** What a program can count on finding in it. */
  ghost function Held(k: File): (p: Plain)
    requires Loose(k)
    reads k, k.buf, k.fs, k.fs.win
  {
    Plain(Content(k.fs.g, View(k.fs.Disc(), k.H()), k.chain, k.objsize), k.fptr, |k.chain|, Free(k.fs.Fat()))
  }

  /** The file may be used. */
  lemma ValidIff(k: File)
    ensures k.Valid() <==> Loose(k) && (Settled(k) || k.fs.Disc()[k.sect] == k.buf[..])
    ensures k.Valid() ==> Held(k) == Seen(k)
  {
    if k.fs.Valid() && k.buf.Length == 512 {
      LooseIff(k.fs.g, k.fs.Disc(), k.fs.Fat(), k.fs.chains, k.chain, k.H(), k.fs.winsect, k.dirSect);
    }
  }

  /** Two different files of the volume, neither of which has its directory entry inside the other. */
  ghost predicate Pair(f: File, k: File)
    reads f, f.buf, k, k.buf, f.fs, f.fs.win, k.fs, k.fs.win
  {
    && Loose(f) && Loose(k) && f != k && f.fs == k.fs && f.buf != k.buf
    && (f.sclust == 0 || f.sclust != k.sclust)
    && Away(f.fs.g, f.fs.Fat(), f.chain, k.dirSect) && Away(f.fs.g, f.fs.Fat(), k.chain, f.dirSect)
  }

  lemma Swapped(f: File, k: File)
    ensures Pair(f, k) <==> Pair(k, f)
  {}

  lemma BesideFrom(g: Geometry, d: Disc, e: Disc, F: seq<nat>, C: Chains, G: seq<nat>, D: Chains, key: nat,
                   own: seq<nat>, after: nat, now: seq<nat>, ds: nat, w: nat, w': nat, chain: seq<nat>, start: nat)
    requires GeometryOk(g, |d|) && |F| == |G| == g.nFatent && WellFormed(F, C) && WellFormed(G, D)
    requires Touched(g, d, e, C, D, key, own, after, now, ds, w, w') && StartOk(C, key, own) && StartOk(C, start, chain)
    requires start == 0 || start != key
    requires Away(g, F, chain, ds)
    ensures Beside(g, d, e, F, C, G, D, chain, start)
  {
    ChainDistinct(g, F, chain) by { if start != 0 { assert IsChain(F, C[start]); } }
    forall s | g.database <= s < |d| && OnChain(g, chain, s) ensures e[s] == d[s] {
      AwayFrom(g, |d|, F, chain, ds, s);
      if key != 0 { OtherSectors(g, C, F, start, key, s); }
      if after != 0 { OtherSectors(g, D, G, start, after, s); }
    }
  }

  /** The window stays away from the other file. */
  lemma WindowAway(g: Geometry, n: nat, F: seq<nat>, C: Chains, G: seq<nat>, D: Chains, key: nat, own: seq<nat>,
                   chain: seq<nat>, ds: nat, w: nat, w': nat)
    requires GeometryOk(g, n) && |F| == |G| == g.nFatent && WellFormed(F, C) && WellFormed(G, D)
    requires SameBut(C, D, key) && StartOk(C, key, own) && (w' == w || w' < g.database || w' == ds)
    requires Away(g, F, own, w) && Away(g, F, chain, w) && Away(g, F, own, ds) && Away(g, F, chain, ds)
    ensures Away(g, G, chain, w')
  {
    if w' < g.database {
      FatIsAway(g, n, G, chain, w');
    } else {
      StaysAway(g, F, C, G, D, key, own, chain, w');
    }
  }

  // ---------------------------------------------------------------- the calls

  /** After a call on `f` that touched only its own part of the volume, the other file is as it was. */
  ghost method Kept(f: File, k: File, b: Was, kh: Handle, kc: seq<nat>)
    requires f.Valid() && f != k && f.fs == k.fs && f.buf != k.buf && k.buf.Length == 512 && k.buf != k.fs.win
    requires k.H() == kh && k.chain == kc && (b.sclust == 0 || b.sclust != k.sclust)
    requires LooseOk(f.fs.g, b.disc, b.table, b.chains, kc, kh, b.w, k.dirSect) && StartOk(b.chains, b.sclust, b.chain)
    requires Away(f.fs.g, b.table, b.chain, b.w) && Away(f.fs.g, b.table, b.chain, f.dirSect)
    requires Away(f.fs.g, b.table, b.chain, k.dirSect) && Away(f.fs.g, b.table, kc, f.dirSect)
    requires Touches(b, f)
    ensures Pair(f, k) && Held(k).bytes == Content(f.fs.g, View(b.disc, kh), kc, kh.objsize)
  {
    var g, e, G, D := f.fs.g, f.fs.Disc(), f.fs.Fat(), f.fs.chains;
    BesideFrom(g, b.disc, e, b.table, b.chains, G, D, b.sclust, b.chain, f.sclust, f.chain, f.dirSect, b.w,
               f.fs.winsect, kc, k.sclust);
    WindowAway(g, |b.disc|, b.table, b.chains, G, D, b.sclust, b.chain, kc, f.dirSect, b.w, f.fs.winsect);
    StaysAway(g, b.table, b.chains, G, D, b.sclust, b.chain, kc, k.dirSect);
    StaysAway(g, b.table, b.chains, G, D, b.sclust, b.chain, kc, f.dirSect);
    ChangedAway(g, b.table, b.chains, G, D, b.sclust, b.chain, f.sclust, f.chain, k.dirSect);
    LooseUndisturbed(g, b.disc, e, b.table, b.chains, G, D, kc, kh, b.w, f.fs.winsect, k.dirSect);
    ValidIff(f);
    StartsDiffer(G, D, f.sclust, f.chain, k.sclust, b.chains, b.sclust, kc);
  }

  lemma StartsDiffer(G: seq<nat>, D: Chains, after: nat, now: seq<nat>, start: nat, C: Chains, key: nat,
                     chain: seq<nat>)
    requires StartOk(D, after, now) && StartOk(C, start, chain) && (after == key || after !in C || now == [])
    requires WellFormed(G, D) && (key == 0 || key != start)
    ensures after == 0 || after != start
  {
    if after != 0 { assert IsChain(G, D[after]); }
  }

  /** A call on one file does to it what it does when it is alone, and nothing to another open file but that the
      free clusters are shared; the other stays usable, unless its buffer was left behind by a truncation. */
  method PerformBeside(f: File, k: File, c: Call) returns (out: seq<Byte>)
    requires Pair(f, k) && f.Valid() && f.dirOfs + 32 <= SS && (c.WriteCall? ==> |c.x| < 0x1_0000_0000)
    modifies f, f.buf, f.fs, f.fs.win
    ensures Pair(f, k) && f.Valid() && Step(old(Held(f)), c, Held(f), out, ModeOf(f))
    ensures Held(k) == old(Held(k)).(free := Held(f).free)
    ensures old(Settled(k)) ==> k.Valid() && Settled(k)
    ensures old(Settled(f)) && (c.TruncateCall? ==> old(f.fptr) % SS != 0) ==> Settled(f)
  {
    ValidIff(f);
    ghost var b, kh, kc := VolumeAt(f), k.H(), k.chain;
    VolumeIs(f, k);
    out := Perform(f, c);
    Kept(f, k, b, kh, kc);
    ValidIff(f);
    ValidIff(k);
  }

  lemma VolumeIs(f: File, k: File)
    requires Pair(f, k) && f.Valid()
    ensures var b := VolumeAt(f);
      StartOk(b.chains, b.sclust, b.chain) && Away(f.fs.g, b.table, b.chain, b.w)
      && Away(f.fs.g, b.table, b.chain, f.dirSect)
  {}

  // ---------------------------------------------------------------- interleaved runs

  /** Both files. */
  datatype Two = Two(first: Plain, second: Plain)

  datatype Turn = Turn(first: bool, call: Call)

  /** One call on one of the files. */
  predicate TurnStep(p: Two, t: Turn, q: Two, out: seq<Byte>, m: Mode, n: Mode) {
    if t.first then Step(p.first, t.call, q.first, out, m) && q.second == p.second.(free := q.first.free)
    else Step(p.second, t.call, q.second, out, n) && q.first == p.first.(free := q.second.free)
  }

  datatype Runs = Runs(files: seq<Two>, outs: seq<seq<Byte>>)

  predicate AreRuns(r: Runs, turns: seq<Turn>, m: Mode, n: Mode) {
    && |r.files| == |turns| + 1 && |r.outs| == |turns|
    && forall i :: 0 <= i < |turns| ==> TurnAt(r, turns, i, m, n)
  }

  predicate TurnAt(r: Runs, turns: seq<Turn>, i: nat, m: Mode, n: Mode)
    requires i < |turns| && |r.files| == |turns| + 1 && |r.outs| == |turns|
  {
    TurnStep(r.files[i], turns[i], r.files[i + 1], r.outs[i], m, n)
  }

  lemma OneTurnMore(r: Runs, turns: seq<Turn>, i: nat, q: Two, out: seq<Byte>, m: Mode, n: Mode)
    requires i < |turns| && AreRuns(r, turns[..i], m, n) && TurnStep(r.files[i], turns[i], q, out, m, n)
    ensures AreRuns(Runs(r.files + [q], r.outs + [out]), turns[..i + 1], m, n)
  {
    var t := Runs(r.files + [q], r.outs + [out]);
    var upTo := turns[..i + 1];
    forall j | 0 <= j < i + 1 ensures TurnAt(t, upTo, j, m, n) {
      if j < i { assert TurnAt(r, turns[..i], j, m, n); }
    }
  }

  /** Both files can be used, and stay so whatever happens to the other. */
  ghost predicate Ready(f: File, k: File)
    reads f, f.buf, k, k.buf, f.fs, f.fs.win, k.fs, k.fs.win
  {
    Pair(f, k) && f.Valid() && k.Valid() && Settled(f) && Settled(k) && f.dirOfs + 32 <= SS && k.dirOfs + 32 <= SS
  }

  /** A truncation at a multiple of 512 may leave the buffer behind. */
  predicate Careful(c: Call, at: nat) {
    c.TruncateCall? ==> at % SS != 0
  }

  ghost function Both(f: File, k: File): (p: Two)
    requires Loose(f) && Loose(k)
    reads f, f.buf, k, k.buf, f.fs, f.fs.win, k.fs, k.fs.win
  {
    Two(Held(f), Held(k))
  }

  method OneTurn(f: File, k: File, t: Turn) returns (out: seq<Byte>)
    requires Ready(f, k) && (t.call.WriteCall? ==> |t.call.x| < 0x1_0000_0000)
    requires Careful(t.call, if t.first then f.fptr else k.fptr)
    modifies f, f.buf, k, k.buf, f.fs, f.fs.win
    ensures Ready(f, k) && TurnStep(old(Both(f, k)), t, Both(f, k), out, ModeOf(f), ModeOf(k))
  {
    if t.first {
      out := PerformBeside(f, k, t.call);
    } else {
      Swapped(f, k);
      out := PerformBeside(k, f, t.call);
      Swapped(f, k);
    }
  }

  /** Any interleaving of calls on two files, up to a truncation at a multiple of 512, is an interleaving of calls
      on two plain files that share the free clusters. */
  method Execute(f: File, k: File, turns: seq<Turn>) returns (done: nat, outs: seq<seq<Byte>>, ghost r: Runs)
    requires Ready(f, k)
    requires forall i :: 0 <= i < |turns| && turns[i].call.WriteCall? ==> |turns[i].call.x| < 0x1_0000_0000
    modifies f, f.buf, k, k.buf, f.fs, f.fs.win
    ensures Ready(f, k) && done <= |turns| && AreRuns(r, turns[..done], ModeOf(f), ModeOf(k)) && r.outs == outs
    ensures r.files[0] == old(Both(f, k)) && r.files[done] == Both(f, k)
    ensures done < |turns| ==> !Careful(turns[done].call, if turns[done].first then f.fptr else k.fptr)
  {
    outs, done := [], 0;
    r := Runs([Both(f, k)], []);
    while done < |turns|
      invariant done <= |turns| && Ready(f, k) && AreRuns(r, turns[..done], ModeOf(f), ModeOf(k)) && r.outs == outs
      invariant r.files[0] == old(Both(f, k)) && r.files[done] == Both(f, k)
    {
      var t := turns[done];
      if !Careful(t.call, if t.first then f.fptr else k.fptr) { return; }
      var out := OneTurn(f, k, t);
      OneTurnMore(r, turns, done, Both(f, k), out, ModeOf(f), ModeOf(k));
      r := Runs(r.files + [Both(f, k)], r.outs + [out]);
      outs, done := outs + [out], done + 1;
    }
  }
}
