/** Directories on a volume (system/ff.c: dir_sdi, dir_next, dir_clear, dir_alloc, dir_read, and the part of
    dir_register that stores a name): whatever sectors and clusters the entries lie in, they behave as one
    sequence. */
module FatDirectory {
  import opened Bits
  import opened FatDisk
  import opened FatChains
  import opened FatVolume
  import opened FatContent
  import opened FatSteps
  import opened FatNames
  import opened FatEntries

  class Dir {
    const fs: Volume
    const sclust: nat         // first cluster, or 0 for the root
    const dirbase: nat        // fs->dirbase: first sector of the fixed root area, or first cluster of a FAT32 root
    const nRoot: nat          // fs->n_rootdir
    const lfnbuf: array<Unit>
    var dptr: nat
    var clust: nat
    var sect: nat
    var blkOfs: nat
    ghost var at: nat         // the entry at byte `dptr`

    constructor (vol: Volume, first: nat, base: nat, root: nat)
      requires vol.Valid() && WellFormed(vol.Fat(), vol.chains)
      requires var c := if first == 0 && vol.g.fsType == Fat32 then base else first;
        && (c != 0 ==> c in vol.chains)
        && AreaOk(Area(vol.g, if c == 0 then [] else vol.chains[c], base, root), |vol.disk|)
      ensures Valid() && fresh(lfnbuf) && fs == vol && sclust == first && dirbase == base && nRoot == root
    {
      fs, sclust, dirbase, nRoot := vol, first, base, root;
      lfnbuf := new Unit[MAX_LFN + 1](i => 0);
      dptr, clust, sect, blkOfs, at := 0, 0, 0, NO_LFN, 0;
    }

    /** Cluster 0 stands for the root, which on FAT32 is a chain like any other. */
    function First(): (c: nat)
      reads fs
    {
      if sclust == 0 && fs.g.fsType == Fat32 then dirbase else sclust
    }

    ghost function A(): (a: Area)
      reads fs
    {
      Area(fs.g, if First() != 0 && First() in fs.chains then fs.chains[First()] else [], dirbase, nRoot)
    }

    ghost predicate Valid()
      reads this, fs, fs.win
    {
      && fs.Valid() && WellFormed(fs.Fat(), fs.chains) && (First() != 0 ==> First() in fs.chains)
      && AreaOk(A(), |fs.disk|) && lfnbuf.Length == MAX_LFN + 1
    }

    /** The entries. */
    ghost function Listing(): (t: seq<DirEntry>)
      requires Valid()
      reads this, fs, fs.win
    {
      Entries(A(), fs.Disc())
    }

    /** The directory object is at an entry. */
    ghost predicate Positioned()
      requires Valid()
      reads this, fs, fs.win
    {
      dptr == 32 * at && PlaceOk(A(), at, clust, sect)
    }

    /** Only a directory with a first cluster has a chain. */
    lemma ChainStarts()
      requires Valid()
      ensures A().chain == [] <==> First() == 0
      ensures First() != 0 ==> A().chain[0] == First() && IsChain(fs.Fat(), A().chain)
      ensures forall c :: c in A().chain ==> c >= 2
    {
      if First() != 0 { assert IsChain(fs.Fat(), fs.chains[First()]); }
      forall c | c in A().chain ensures c >= 2 { UsedInChain(fs.Fat(), A().chain, c); }
    }

    // -------------------------------------------------------------- dir_sdi

    /** Moves to the entry at byte `ofs`. */
    method Sdi(ofs: nat) returns (res: FResult)
      requires Valid()
      modifies this`dptr, this`clust, this`sect, this`at, fs`disk, fs`wflag, fs`winsect, fs.win
      ensures Valid() && fs.Disc() == old(fs.Disc()) && A() == old(A()) && Listing() == old(Listing())
      ensures res == if ofs % 32 == 0 && ofs / 32 < Count(A()) then FrOk else FrIntErr
      ensures res == FrOk ==> Positioned() && dptr == ofs && at == ofs / 32
    {
      if ofs >= 32 * MAX_ENTRIES || ofs % 32 != 0 { return FrIntErr; }
      dptr, at := ofs, ofs / 32;
      EntryPlace(at);
      ChainStarts();
      if First() == 0 {
        if ofs / 32 >= nRoot { return FrIntErr; }
        sect := dirbase;
        clust := 0;
        sect := sect + ofs / SS;
        Inside(A(), |fs.disk|, ofs / SS);
        res := FrOk;
      } else {
        res := SdiChain(ofs);
      }
    }

    method SdiChain(ofs: nat) returns (res: FResult)
      requires Valid() && First() != 0 && dptr == ofs == 32 * at && at < MAX_ENTRIES
      modifies this`clust, this`sect, fs`disk, fs`wflag, fs`winsect, fs.win
      ensures Valid() && fs.Disc() == old(fs.Disc()) && A() == old(A())
      ensures res == if at < Count(A()) then FrOk else FrIntErr
      ensures res == FrOk ==> Positioned()
    {
      ChainStarts();
      var clst, rest := Walk(ofs);
      EntryPlace(at);
      QuotBelow(ofs / SS, fs.g.csize, |A().chain|);
      if clst == 0 { return FrIntErr; }
      Clst2SectIs(fs.g, |fs.disk|, clst);
      WalkedTo(fs.g, ofs, rest);
      Inside(A(), |fs.disk|, ofs / SS);
      LinkOf(fs.Fat(), A().chain, Quot(ofs / SS, fs.g.csize), clst);
      sect := Clst2Sect(fs.g, clst);
      clust := clst;
      if sect == 0 { assert false; }
      sect := sect + rest / SS;
      res := FrOk;
    }

    /** Follows the chain to the cluster of byte `ofs`, with what is left of the offset there; 0 at the end of the
        table. */
    method Walk(ofs: nat) returns (clst: nat, rest: nat)
      requires Valid() && First() != 0
      modifies fs`disk, fs`wflag, fs`winsect, fs.win
      ensures Valid() && fs.Disc() == old(fs.Disc()) && A() == old(A())
      ensures var j := Quot(ofs / SS, fs.g.csize);
        if j < |A().chain| then clst == A().chain[j] != 0 && rest + ClusterBytes(fs.g) * j == ofs else clst == 0
    {
      ghost var s := A().chain;
      ChainStarts();
      ClusterOf(fs.g, ofs);
      clst := First();
      rest := ofs;
      ghost var j: nat := 0;
      while rest >= fs.g.csize * SS
        invariant Valid() && fs.Disc() == old(fs.Disc()) && A() == old(A())
        invariant j < |s| && clst == s[j] && rest + ClusterBytes(fs.g) * j == ofs
        decreases rest
      {
        LinkOf(fs.Fat(), s, j, clst);
        clst := fs.GetFat(clst);
        if clst < 2 || clst >= fs.g.nFatent {
          PastEnd(ofs, ClusterBytes(fs.g), rest, j, |s|);
          return 0, rest;
        }
        OneFurther(ClusterBytes(fs.g), j);
        rest := rest - fs.g.csize * SS;
        j := j + 1;
      }
      MultipleUnique(ofs, ClusterBytes(fs.g), j, rest);
    }

    // -------------------------------------------------------------- dir_next

    /** Moves to the next entry, in `stretch` mode adding a cluster at the end of a chain. */
    method Next(stretch: bool) returns (res: FResult)
      requires Valid() && Positioned()
      modifies this`dptr, this`clust, this`sect, this`at
      modifies fs`disk, fs`wflag, fs`winsect, fs.win, fs`freeClst, fs`lastClst, fs`fsiFlag, fs`chains
      ensures Valid() && Stretches(old(Listing()), Listing())
      ensures if old(at) + 1 < old(Count(A()))
        then res == FrOk && fs.Disc() == old(fs.Disc()) && A() == old(A()) && Listing() == old(Listing())
        else if !stretch || old(A()).chain == [] || old(at) + 1 >= MAX_ENTRIES
        then res == FrNoFile && fs.Disc() == old(fs.Disc()) && Listing() == old(Listing())
        else res == FrOk || (res == FrDenied && NoFree(fs.Fat()))
      ensures res == FrOk ==> Positioned() && at == old(at) + 1
      ensures res == FrNoFile ==> sect == 0
      ensures res != FrOk ==> A() == old(A())
    {
      StretchesSelf(Listing());
      var ofs := dptr + 32;
      if ofs >= 32 * MAX_ENTRIES { sect := 0; }
      if sect == 0 { return FrNoFile; }
      res := FrOk;
      EntryPlace(at);
      if ofs % SS == 0 {
        res := NextInTable(ofs, stretch);
        if res != FrOk { return; }
      } else {
        StayInSector(A(), at, clust, sect);
      }
      dptr, at := ofs, at + 1;
    }

    /** On to the next sector. */
    method NextInTable(ofs: nat, stretch: bool) returns (res: FResult)
      requires Valid() && Positioned() && ofs == dptr + 32 && at + 1 < MAX_ENTRIES && (at + 1) % PER_SECTOR == 0
      modifies this`clust, this`sect
      modifies fs`disk, fs`wflag, fs`winsect, fs.win, fs`freeClst, fs`lastClst, fs`fsiFlag, fs`chains
      ensures Valid() && Stretches(old(Listing()), Listing())
      ensures if at + 1 < old(Count(A()))
        then res == FrOk && fs.Disc() == old(fs.Disc()) && A() == old(A()) && Listing() == old(Listing())
        else if !stretch || old(A()).chain == []
        then res == FrNoFile && fs.Disc() == old(fs.Disc()) && Listing() == old(Listing())
        else res == FrOk || (res == FrDenied && NoFree(fs.Fat()))
      ensures res == FrOk ==> PlaceOk(A(), at + 1, clust, sect)
      ensures res == FrNoFile ==> sect == 0
      ensures res != FrOk ==> A() == old(A())
    {
      StretchesSelf(Listing());
      SectorAfter(A(), at);
      EntryPlace(at);
      ChainStarts();
      if clust == 0 {
        res := NextFixed(ofs);
      } else {
        res := NextInChain(dptr / SS, stretch);
        NewPlace(A(), at, clust, sect);
      }
    }

    /** On to the next sector of the fixed root area. */
    method NextFixed(ofs: nat) returns (res: FResult)
      requires Valid() && Positioned() && ofs == dptr + 32 && at + 1 < MAX_ENTRIES && (at + 1) % PER_SECTOR == 0
      requires A().chain == []
      modifies this`sect
      ensures Valid() && Listing() == old(Listing()) && A() == old(A())
      ensures res == if at + 1 < Count(A()) then FrOk else FrNoFile
      ensures if res == FrOk then PlaceOk(A(), at + 1, clust, sect) else sect == 0
    {
      SectorAfter(A(), at);
      sect := sect + 1;
      if ofs / 32 >= nRoot {
        sect := 0;
        return FrNoFile;
      }
      res := FrOk;
    }

    /** On from sector `j` of the chain. */
    method NextInChain(j: nat, stretch: bool) returns (res: FResult)
      requires Valid() && A().chain != [] && j < Sectors(A()) && InSector(A(), j, clust, sect)
      modifies this`clust, this`sect
      modifies fs`disk, fs`wflag, fs`winsect, fs.win, fs`freeClst, fs`lastClst, fs`fsiFlag, fs`chains
      ensures Valid() && Stretches(old(Listing()), Listing())
      ensures if j + 1 < old(Sectors(A())) then res == FrOk && fs.Disc() == old(fs.Disc()) && A() == old(A())
        else if !stretch then res == FrNoFile && fs.Disc() == old(fs.Disc())
        else res == FrOk || (res == FrDenied && NoFree(fs.Fat()))
      ensures res == FrOk ==> j + 1 < Sectors(A()) && InSector(A(), j + 1, clust, sect)
      ensures res == FrNoFile ==> sect == 0
      ensures res != FrOk ==> A() == old(A())
    {
      StretchesSelf(Listing());
      NextSector(A(), |fs.disk|, j);
      SectorInCluster(fs.g, j + 1);
      sect := sect + 1;
      res := FrOk;
      if And(j + 1, fs.g.csize - 1) == 0 {
        res := NextCluster(j, stretch);
      }
    }

    /** From the last sector of a cluster, number `j`, to the first one of the next. */
    method NextCluster(j: nat, stretch: bool) returns (res: FResult)
      requires Valid() && A().chain != [] && j < Sectors(A()) && Rem(j + 1, fs.g.csize) == 0
      requires Quot(j, fs.g.csize) < |A().chain| && clust == A().chain[Quot(j, fs.g.csize)]
      modifies this`clust, this`sect
      modifies fs`disk, fs`wflag, fs`winsect, fs.win, fs`freeClst, fs`lastClst, fs`fsiFlag, fs`chains
      ensures Valid() && Stretches(old(Listing()), Listing())
      ensures if j + 1 < old(Sectors(A())) then res == FrOk && fs.Disc() == old(fs.Disc()) && A() == old(A())
        else if !stretch then res == FrNoFile && fs.Disc() == old(fs.Disc())
        else res == FrOk || (res == FrDenied && NoFree(fs.Fat()))
      ensures res == FrOk ==> j + 1 < Sectors(A()) && InSector(A(), j + 1, clust, sect)
      ensures res == FrNoFile ==> sect == 0
      ensures res != FrOk ==> A() == old(A())
    {
      StretchesSelf(Listing());
      NextSector(A(), |fs.disk|, j);
      ChainStarts();
      LinkOf(fs.Fat(), A().chain, Quot(j, fs.g.csize), clust);
      var clst := fs.GetFat(clust);
      if clst <= 1 { assert false; }
      if clst < fs.g.nFatent {
        Enter(clst, j + 1);
        return FrOk;
      }
      if !stretch {
        sect := 0;
        return FrNoFile;
      }
      res := NextStretched(j);
    }

    /** To the first sector of cluster `clst`, number `j`. */
    method Enter(clst: nat, j: nat)
      requires Valid() && A().chain != [] && Rem(j, fs.g.csize) == 0
      requires Quot(j, fs.g.csize) < |A().chain| && clst == A().chain[Quot(j, fs.g.csize)]
      modifies this`clust, this`sect
      ensures Valid() && InSector(A(), j, clust, sect)
    {
      QuotBelow(j, fs.g.csize, |A().chain|);
      Inside(A(), |fs.disk|, j);
      Clst2SectIs(fs.g, |fs.disk|, clst);
      clust := clst;
      sect := Clst2Sect(fs.g, clst);
    }

    method NextStretched(j: nat) returns (res: FResult)
      requires Valid() && A().chain != [] && j < Sectors(A()) <= j + 1 && Rem(j + 1, fs.g.csize) == 0
      requires clust == A().chain[|A().chain| - 1]
      modifies this`clust, this`sect
      modifies fs`disk, fs`wflag, fs`winsect, fs.win, fs`freeClst, fs`lastClst, fs`fsiFlag, fs`chains
      ensures Valid() && Stretches(old(Listing()), Listing())
      ensures res == FrOk || (res == FrDenied && NoFree(fs.Fat()) && A() == old(A()))
      ensures res == FrOk ==> j + 1 < Sectors(A()) && InSector(A(), j + 1, clust, sect)
    {
      ghost var a := A();
      var clst := Stretch(clust);
      if clst == 0 { return FrDenied; }
      LastSector(a, A(), clst, j);
      Enter(clst, j + 1);
      res := FrOk;
    }

    // -------------------------------------------------------------- stretching

    /** Adds a cleared cluster after the last one, `c`; 0 when none is free. */
    method Stretch(c: nat) returns (clst: nat)
      requires Valid() && A().chain != [] && c == A().chain[|A().chain| - 1]
      modifies fs`disk, fs`wflag, fs`winsect, fs.win, fs`freeClst, fs`lastClst, fs`fsiFlag, fs`chains
      ensures Valid() && Stretches(old(Listing()), Listing())
      ensures if clst == 0 then NoFree(fs.Fat()) && fs.Disc() == old(fs.Disc()) && A() == old(A())
              else A() == old(A()).(chain := old(A()).chain + [clst]) && IsCluster(fs.Fat(), clst)
    {
      ghost var a, d, F := A(), fs.Disc(), fs.Fat();
      StretchesSelf(Listing());
      ChainStarts();
      LinkOf(F, a.chain, |a.chain| - 1, c);
      NoReserved(F, fs.chains);
      clst := fs.CreateChain(c);
      if clst == 1 { assert false; }
      if clst == 0 { return; }
      ghost var m := fs.Disc();
      Joined(a, F, c, clst);
      ClearCluster(clst);
      Longer(a, A(), d, m, clst);
    }

    /** The chain takes in the cluster just linked. */
    ghost method Joined(a: Area, F: seq<nat>, c: nat, r: nat)
      requires fs.Valid() && WellFormed(F, fs.chains) && First() != 0 && First() in fs.chains && a == A()
      requires AreaOk(a, |fs.disk|) && |F| == fs.g.nFatent && a.chain != [] && c == a.chain[|a.chain| - 1]
      requires IsCluster(F, c) && IsCluster(F, r) && F[r] == 0 && fs.Fat() == Linked(F, c, r, Eoc(fs.g))
      requires lfnbuf.Length == MAX_LFN + 1
      modifies fs`chains
      ensures Valid() && A() == a.(chain := a.chain + [r])
    {
      EocEndsChain(fs.g, |fs.disk|);
      GrowKeepsForm(F, fs.chains, c, First(), r, Eoc(fs.g));
      fs.chains := Grown(fs.chains, c, First(), r);
      ChainDistinct(fs.g, fs.Fat(), A().chain);
    }

    /** dir_clear: fills a cluster of the directory with zeroes. */
    method ClearCluster(clst: nat)
      requires fs.Valid() && IsCluster(fs.Fat(), clst)
      modifies fs`disk, fs`wflag, fs`winsect, fs.win
      ensures fs.Valid() && fs.Disc() == Cleared(old(fs.Disc()), Base(fs.g, clst), fs.g.csize)
      ensures fs.Fat() == old(fs.Fat())
    {
      ClusterRoom(fs.g, |fs.disk|, clst);
      ClearSectors(Clst2Sect(fs.g, clst));
    }

    method ClearSectors(s: nat)
      requires fs.Valid() && fs.g.database <= s && s + fs.g.csize <= |fs.disk|
      modifies fs`disk, fs`wflag, fs`winsect, fs.win
      ensures fs.Valid() && fs.Disc() == Cleared(old(fs.Disc()), s, fs.g.csize) && fs.Fat() == old(fs.Fat())
    {
      ghost var d := fs.Disc();
      fs.SyncWindow();
      ClearedWindow(fs.g, d, s, fs.g.csize);
      FillCluster(s);
    }

    /** Clears the window and writes it to each sector of the cluster at `sect`. */
    method FillCluster(sect: nat)
      requires fs.win.Length == 512 && sect + fs.g.csize <= |fs.disk|
      modifies fs`disk, fs`winsect, fs.win
      ensures fs.disk == Cleared(old(fs.disk), sect, fs.g.csize) && fs.winsect == sect && fs.win[..] == ZeroSector()
    {
      fs.winsect := sect;
      forall i | 0 <= i < 512 { fs.win[i] := 0; }
      assert fs.win[..] == ZeroSector();
      var n := 0;
      assert fs.disk == Cleared(fs.disk, sect, 0);
      while n < fs.g.csize
        invariant 0 <= n <= fs.g.csize && fs.disk == Cleared(old(fs.disk), sect, n)
        invariant fs.winsect == sect && fs.win[..] == ZeroSector()
      {
        ClearedMore(old(fs.disk), sect, n);
        fs.disk := fs.disk[sect + n := fs.win[..]];
        n := n + 1;
      }
    }

    // -------------------------------------------------------------- one entry

    /** Brings the current entry into the window. */
    method Look() returns (e: DirEntry)
      requires Valid() && Positioned()
      modifies fs`disk, fs`wflag, fs`winsect, fs.win
      ensures Valid() && Positioned() && fs.Disc() == old(fs.Disc()) && A() == old(A()) && fs.winsect == sect
      ensures Listing() == old(Listing()) && e == Listing()[at]
    {
      EntryPlace(at);
      Inside(A(), |fs.disk|, dptr / SS);
      fs.MoveWindow(sect);
      e := EntryIn(fs.win[..], dptr % SS / 32);
    }

    /** Stores an entry at the current place. */
    method Put(e: DirEntry)
      requires Valid() && Positioned()
      modifies fs`disk, fs`wflag, fs`winsect, fs.win
      ensures Valid() && Positioned() && A() == old(A()) && Listing() == old(Listing())[at := e]
    {
      EntryPlace(at);
      Inside(A(), |fs.disk|, dptr / SS);
      PutEntry(A(), fs.Disc(), at, e);
      fs.MoveWindow(sect);
      fs.PatchWindow(dptr % SS, e);
    }

    // -------------------------------------------------------------- dir_alloc

    /** Finds the first `nEnt` free entries in a row, stretching the directory if it must, and moves to the last
        of them. */
    method Alloc(nEnt: nat) returns (res: FResult)
      requires Valid() && 1 <= nEnt
      modifies this`dptr, this`clust, this`sect, this`at
      modifies fs`disk, fs`wflag, fs`winsect, fs.win, fs`freeClst, fs`lastClst, fs`fsiFlag, fs`chains
      ensures Valid() && Stretches(old(Listing()), Listing())
      ensures res == FrOk ==> Positioned() && FirstRun(Listing(), at, nEnt)
      ensures res != FrOk ==> (res == FrDenied || res == FrIntErr) && NoRun(Listing(), |Listing()|, nEnt) && Full()
    {
      ghost var t := Listing();
      StretchesSelf(t);
      res := Sdi(0);
      if res != FrOk { return; }
      SearchStarts(t, nEnt);
      res := Hunt(t, nEnt);
      if res == FrNoFile { res := FrDenied; }
    }

    /** The directory cannot get larger. */
    ghost predicate Full()
      requires Valid()
      reads this, fs, fs.win
    {
      A().chain == [] || Count(A()) == MAX_ENTRIES || NoFree(fs.Fat())
    }

    method Hunt(ghost t: seq<DirEntry>, nEnt: nat) returns (res: FResult)
      requires Hunting(t, 0, nEnt)
      modifies this`dptr, this`clust, this`sect, this`at
      modifies fs`disk, fs`wflag, fs`winsect, fs.win, fs`freeClst, fs`lastClst, fs`fsiFlag, fs`chains
      ensures Valid() && Stretches(t, Listing())
      ensures res == FrOk ==> Positioned() && FirstRun(Listing(), at, nEnt)
      ensures res != FrOk ==> (res == FrDenied || res == FrNoFile) && NoRun(Listing(), |Listing()|, nEnt) && Full()
    {
      var n := 0;
      while true
        invariant Hunting(t, n, nEnt)
        decreases MAX_ENTRIES - at
      {
        ghost var m := n;
        n := CountFree(t, n, nEnt);
        if n == nEnt { return FrOk; }
        res := HuntOn(t, m, n, nEnt);
        if res != FrOk { return; }
      }
    }

    /** The search is at the current entry, with `n` free ones just before it. */
    ghost predicate Hunting(t: seq<DirEntry>, n: nat, nEnt: nat)
      reads this, fs, fs.win
    {
      Valid() && Positioned() && Stretches(t, Listing()) && Searching(Listing(), at, n, nEnt)
    }

    /** Looks at the current entry. */
    method CountFree(ghost t: seq<DirEntry>, n: nat, nEnt: nat) returns (m: nat)
      requires Hunting(t, n, nEnt)
      modifies fs`disk, fs`wflag, fs`winsect, fs.win
      ensures Hunting(t, n, nEnt) && m == (if FreeAt(Listing(), at) then n + 1 else 0) && m <= nEnt
      ensures m == nEnt ==> FirstRun(Listing(), at, nEnt)
    {
      var e := Look();
      m := if IsFree(e) then n + 1 else 0;
      if m == nEnt { RunFound(Listing(), at, n, nEnt); }
    }

    method HuntOn(ghost t: seq<DirEntry>, ghost m: nat, ghost n: nat, ghost nEnt: nat) returns (res: FResult)
      requires Hunting(t, m, nEnt) && n < nEnt && n == (if FreeAt(Listing(), at) then m + 1 else 0)
      modifies this`dptr, this`clust, this`sect, this`at
      modifies fs`disk, fs`wflag, fs`winsect, fs.win, fs`freeClst, fs`lastClst, fs`fsiFlag, fs`chains
      ensures Valid() && Stretches(t, Listing())
      ensures res == FrOk ==> Hunting(t, n, nEnt) && at == old(at) + 1
      ensures res != FrOk ==> (res == FrDenied || res == FrNoFile) && NoRun(Listing(), |Listing()|, nEnt) && Full()
    {
      ghost var u, i := Listing(), at;
      SearchGoesOn(u, i, m, nEnt);
      res := Next(true);
      StretchesTwice(t, u, Listing());
      SearchLonger(u, Listing(), i + 1, n, nEnt);
    }

    // -------------------------------------------------------------- dir_read

    /** Reads the next file from the current entry on: the first one there is before the end of the directory, and
        its long name exactly where one is. */
    method Read() returns (res: FResult)
      requires Valid() && (sect != 0 ==> Positioned())
      modifies this`dptr, this`clust, this`sect, this`at, this`blkOfs, lfnbuf
      modifies fs`disk, fs`wflag, fs`winsect, fs.win, fs`freeClst, fs`lastClst, fs`fsiFlag, fs`chains
      ensures Valid() && Listing() == old(Listing()) && A() == old(A())
      ensures IsRead(res, old(ReadOn(Listing(), Scan(0xFF, 0xFF, blkOfs, lfnbuf[..]))))
      ensures res == FrOk || res == FrNoFile
      ensures old(sect) == 0 ==> res == FrNoFile
      ensures old(sect) != 0 ==> if res == FrOk then FirstFile(Listing(), old(at), at)
                                 else NoneFrom(Listing(), old(at))
      ensures res == FrOk && blkOfs != NO_LFN ==>
        blkOfs % 32 == 0 && old(at) <= blkOfs / 32 && LongNamed(Listing(), blkOfs / 32, at)
    {
      ghost var want := ReadOn(Listing(), Scan(0xFF, 0xFF, blkOfs, lfnbuf[..]));
      if sect == 0 { return FrNoFile; }
      ReadFinds(Listing(), at, Scan(0xFF, 0xFF, blkOfs, lfnbuf[..]));
      NamedRightly(Listing(), at, at, Scan(0xFF, 0xFF, blkOfs, lfnbuf[..]));
      res := ReadLoop(Listing(), A(), want);
    }

    /** The outcome `want` is what the object shows. */
    ghost predicate IsRead(res: FResult, want: Found)
      requires Valid()
      reads this, fs, fs.win, lfnbuf
    {
      if want.FoundAt?
      then res == FrOk && Positioned() && at == want.at && blkOfs == want.scan.blkOfs && lfnbuf[..] == want.scan.buf
      else res == FrNoFile && sect == 0
    }

    method ReadLoop(ghost t: seq<DirEntry>, ghost a: Area, ghost want: Found) returns (res: FResult)
      requires Reading(t, a, want, 0xFF, 0xFF)
      modifies this`dptr, this`clust, this`sect, this`at, this`blkOfs, lfnbuf
      modifies fs`disk, fs`wflag, fs`winsect, fs.win, fs`freeClst, fs`lastClst, fs`fsiFlag, fs`chains
      ensures Valid() && Listing() == t && A() == a && IsRead(res, want)
    {
      var ord: Byte, sum: Byte := 0xFF, 0xFF;
      while sect != 0
        invariant if sect != 0 then Reading(t, a, want, ord, sum)
                  else Valid() && Listing() == t && A() == a && want == NoFile
        decreases if sect == 0 then 0 else MAX_ENTRIES + 1 - at
      {
        var stop, end;
        stop, end, ord, sum := ReadHere(t, a, want, ord, sum);
        if stop { return FrOk; }
        if end {
          sect := 0;
        } else {
          ReadFurther(t, a, want, ord, sum);
        }
      }
      res := FrNoFile;
    }

    /** What reading comes to from here. */
    ghost function ReadOn(t: seq<DirEntry>, st: Scan): (r: Found)
      reads this
    {
      if sect == 0 then NoFile else ReadFrom(t, at, st)
    }

    /** What is left to read, from the current entry on, will come to `want`. */
    ghost predicate Reading(t: seq<DirEntry>, a: Area, want: Found, ord: Byte, sum: Byte)
      reads this, fs, fs.win, lfnbuf
    {
      && Valid() && Listing() == t && A() == a && Positioned()
      && ReadFrom(t, at, Scan(ord, sum, blkOfs, lfnbuf[..])) == want
    }

    /** Reads the current entry; unless this is the end, the rest is to be read from the next one. */
    method ReadHere(ghost t: seq<DirEntry>, ghost a: Area, ghost want: Found, ord0: Byte, sum0: Byte)
      returns (stop: bool, end: bool, ord: Byte, sum: Byte)
      requires Reading(t, a, want, ord0, sum0)
      modifies this`blkOfs, lfnbuf, fs`disk, fs`wflag, fs`winsect, fs.win
      ensures Valid() && Listing() == t && A() == a && Positioned()
      ensures if end then want == NoFile && !stop
        else if stop then want == FoundAt(at, Scan(ord, sum, blkOfs, lfnbuf[..]))
        else want == ReadFrom(t, at + 1, Scan(ord, sum, blkOfs, lfnbuf[..]))
    {
      var e := Look();
      stop, end, ord, sum := ReadOne(e, ord0, sum0);
    }

    /** Goes on to the next entry; at the end of the table there is nothing to find. */
    method ReadFurther(ghost t: seq<DirEntry>, ghost a: Area, ghost want: Found, ghost ord: Byte, ghost sum: Byte)
      requires Valid() && Listing() == t && A() == a && Positioned()
      requires want == ReadFrom(t, at + 1, Scan(ord, sum, blkOfs, lfnbuf[..]))
      modifies this`dptr, this`clust, this`sect, this`at
      modifies fs`disk, fs`wflag, fs`winsect, fs.win, fs`freeClst, fs`lastClst, fs`fsiFlag, fs`chains
      ensures if sect != 0 then Reading(t, a, want, ord, sum) && at == old(at) + 1
              else Valid() && Listing() == t && A() == a && want == NoFile
    {
      var _ := Next(false);
    }

    /** One round of the loop. */
    method ReadOne(e: DirEntry, ord0: Byte, sum0: Byte) returns (stop: bool, end: bool, ord: Byte, sum: Byte)
      requires lfnbuf.Length == MAX_LFN + 1 && dptr == 32 * at
      modifies this`blkOfs, lfnbuf
      ensures var r := ReadEntry(Scan(ord0, sum0, old(blkOfs), old(lfnbuf[..])), e, at);
        && end == r.EndOfTable? && stop == r.Stop?
        && (!end ==> r.scan.sum == sum && r.scan.ord == ord && r.scan.blkOfs == blkOfs && r.scan.buf == lfnbuf[..])
    {
      ord, sum, stop, end := ord0, sum0, false, false;
      var b, attr := e[0], e[11] % 0x40;
      if b == 0 {
        end := true;
      } else if b == DDEM || b == DOT || IsVolume(attr) {
        ord := 0xFF;
      } else if attr == AM_LFN {
        ord, sum := ReadPart(e, ord0, sum0);
      } else {
        var s := Checksum(e);
        if ord != 0 || sum != s { blkOfs := NO_LFN; }
        stop := true;
      }
    }

    method ReadPart(e: DirEntry, ord0: Byte, sum0: Byte) returns (ord: Byte, sum: Byte)
      requires lfnbuf.Length == MAX_LFN + 1 && e[11] % 0x40 == AM_LFN && e[0] != 0 && e[0] != DDEM && e[0] != DOT
      requires dptr == 32 * at
      modifies this`blkOfs, lfnbuf
      ensures ReadEntry(Scan(ord0, sum0, old(blkOfs), old(lfnbuf[..])), e, at) ==
        Skip(Scan(ord, sum, blkOfs, lfnbuf[..]))
    {
      ord, sum := ord0, sum0;
      var b := e[0];
      if b / LLEF % 2 == 1 {
        sum := e[13];
        b := b - LLEF;
        ord := b;
        blkOfs := dptr;
      }
      var valid := b == ord && sum == e[13];
      if valid { valid := PickLfn(lfnbuf, e); }
      ord := if valid && ord > 0 then ord - 1 else 0xFF;
    }

    // -------------------------------------------------------------- dir_register

    /** The name in the buffer. */
    method BufferedName(ghost name: seq<Unit>) returns (stored: seq<Unit>)
      requires lfnbuf.Length == MAX_LFN + 1 && GoodName(name) && NameIn(lfnbuf[..], name)
      ensures stored == name
    {
      var len := 0;
      while lfnbuf[len] != 0
        invariant 0 <= len <= |name|
        decreases |name| - len
      {
        len := len + 1;
      }
      stored := lfnbuf[..len];
      SameLength(lfnbuf[..], name, len);
    }

    /** Stores the name in the buffer with short name `fn`, in the first free entries that hold it, from entry
        `k` on. */
    method Register(ghost name: seq<Unit>, fn: seq<Byte>, nt: Byte, ghost t: seq<DirEntry>)
      returns (res: FResult, ghost k: nat)
      requires Valid() && GoodName(name) && NameIn(lfnbuf[..], name) && ShortName(fn) && t == Listing()
      modifies this`dptr, this`clust, this`sect, this`at
      modifies fs`disk, fs`wflag, fs`winsect, fs.win, fs`freeClst, fs`lastClst, fs`fsiFlag, fs`chains
      ensures Valid()
      ensures res != FrOk ==> Stretches(t, Listing()) && NoRun(Listing(), |Listing()|, Parts(|name|) + 1) && Full()
      ensures res == FrOk ==> Positioned() && at == k + Parts(|name|) && Inserted(t, Listing(), k, name, fn, nt)
    {
      var stored := BufferedName(name);
      res, k := RegisterName(stored, fn, nt, t);
    }

    method RegisterName(name: seq<Unit>, fn: seq<Byte>, nt: Byte, ghost t: seq<DirEntry>)
      returns (res: FResult, ghost k: nat)
      requires Valid() && GoodName(name) && ShortName(fn) && t == Listing()
      modifies this`dptr, this`clust, this`sect, this`at
      modifies fs`disk, fs`wflag, fs`winsect, fs.win, fs`freeClst, fs`lastClst, fs`fsiFlag, fs`chains
      ensures Valid()
      ensures res != FrOk ==> Stretches(t, Listing()) && NoRun(Listing(), |Listing()|, Parts(|name|) + 1) && Full()
      ensures res == FrOk ==> Positioned() && at == k + Parts(|name|) && Inserted(t, Listing(), k, name, fn, nt)
    {
      k := 0;
      res := Alloc(Parts(|name|) + 1);
      if res == FrOk { k := StoreAt(name, fn, nt, t); }
    }

    /** Goes back to the first of the entries found and stores the name there. */
    method StoreAt(name: seq<Unit>, fn: seq<Byte>, nt: Byte, ghost t: seq<DirEntry>) returns (ghost k: nat)
      requires Valid() && Positioned() && GoodName(name) && ShortName(fn)
      requires Stretches(t, Listing()) && FirstRun(Listing(), at, Parts(|name|) + 1)
      modifies this`dptr, this`clust, this`sect, this`at
      modifies fs`disk, fs`wflag, fs`winsect, fs.win, fs`freeClst, fs`lastClst, fs`fsiFlag, fs`chains
      ensures Valid() && Positioned() && at == k + Parts(|name|) && Inserted(t, Listing(), k, name, fn, nt)
    {
      ghost var u := Listing();
      k := at - Parts(|name|);
      StoreBack(name, fn, nt, u, k);
      NowInserted(t, u, Listing(), k, name, fn, nt);
    }

    method StoreBack(name: seq<Unit>, fn: seq<Byte>, nt: Byte, ghost u: seq<DirEntry>, ghost k: nat)
      requires Valid() && Positioned() && GoodName(name) && ShortName(fn) && at == k + Parts(|name|) && u == Listing()
      modifies this`dptr, this`clust, this`sect, this`at
      modifies fs`disk, fs`wflag, fs`winsect, fs.win, fs`freeClst, fs`lastClst, fs`fsiFlag, fs`chains
      ensures Valid() && Positioned() && at == k + Parts(|name|) && Stored(u, Listing(), k, name, fn, nt)
    {
      BackTo(dptr, k, Parts(|name|));
      var _ := Sdi(dptr - 32 * Parts(|name|));
      StoreName(name, fn, nt, u, k);
    }

    /** Stores the parts, last one first, and the short entry from the current entry on. */
    method StoreName(name: seq<Unit>, fn: seq<Byte>, nt: Byte, ghost u: seq<DirEntry>, ghost k: nat)
      requires Valid() && Positioned() && GoodName(name) && at == k && k + Parts(|name|) < |u| && u == Listing()
      requires ShortName(fn)
      modifies this`dptr, this`clust, this`sect, this`at
      modifies fs`disk, fs`wflag, fs`winsect, fs.win, fs`freeClst, fs`lastClst, fs`fsiFlag, fs`chains
      ensures Valid() && Positioned() && at == k + Parts(|name|) && Stored(u, Listing(), k, name, fn, nt)
    {
      var sum := Checksum(fn);
      assert fn[..11] == fn;
      var nEnt := Parts(|name|);
      NothingStored(u, k, name, sum);
      while nEnt > 0
        invariant Storing(name, nEnt, sum, u, k)
      {
        StorePart(name, nEnt, sum, u, k);
        nEnt := nEnt - 1;
      }
      StoreShort(name, fn, nt, sum, u, k);
    }

    /** The parts above number `nEnt` are stored, and the object is at the next entry. */
    ghost predicate Storing(name: seq<Unit>, nEnt: nat, sum: Byte, u: seq<DirEntry>, k: nat)
      reads this, fs, fs.win
    {
      && Valid() && Positioned() && nEnt <= Parts(|name|) && at == k + (Parts(|name|) - nEnt)
      && k + Parts(|name|) < |u| == |Listing()| && PartsLeft(u, Listing(), k, name, sum, nEnt)
    }

    method StorePart(name: seq<Unit>, nEnt: nat, sum: Byte, ghost u: seq<DirEntry>, ghost k: nat)
      requires GoodName(name) && nEnt > 0 && Storing(name, nEnt, sum, u, k)
      modifies this`dptr, this`clust, this`sect, this`at
      modifies fs`disk, fs`wflag, fs`winsect, fs.win, fs`freeClst, fs`lastClst, fs`fsiFlag, fs`chains
      ensures Storing(name, nEnt - 1, sum, u, k)
    {
      var part := NewPart(name, nEnt, sum);
      OnePartMore(u, Listing(), k, name, sum, nEnt, at, part, Listing()[at := part]);
      Put(part);
      var _ := Next(false);
    }

    method StoreShort(name: seq<Unit>, fn: seq<Byte>, nt: Byte, sum: Byte, ghost u: seq<DirEntry>, ghost k: nat)
      requires GoodName(name) && ShortName(fn) && Storing(name, 0, sum, u, k) && sum == SumOf(fn)
      modifies fs`disk, fs`wflag, fs`winsect, fs.win
      ensures Valid() && Positioned() && Stored(u, Listing(), k, name, fn, nt)
    {
      var e := ShortEntry(fn, nt);
      ShortStored(u, Listing(), k, name, sum, fn, nt, at, Listing()[at := e]);
      Put(e);
    }

    method NewPart(name: seq<Unit>, ord: nat, sum: Byte) returns (e: DirEntry)
      requires GoodName(name) && 1 <= ord <= Parts(|name|)
      ensures IsPart(e, name, ord, sum)
    {
      var dir := new Byte[32](i => 0);
      PutLfn(name, dir, ord, sum);
      e := dir[..];
    }
  }

  lemma BackTo(dptr: nat, k: nat, n: nat)
    requires dptr == 32 * (k + n)
    ensures dptr - 32 * n == 32 * k && (dptr - 32 * n) % 32 == 0 && (dptr - 32 * n) / 32 == k
  {}

  lemma SameLength(buf: seq<Unit>, name: seq<Unit>, len: nat)
    requires GoodName(name) && NameIn(buf, name) && len <= |name| && buf[len] == 0
    ensures buf[..len] == name
  {
    forall i | 0 <= i < |name| ensures buf[i] != 0 { assert buf[i] == buf[..|name|][i] == name[i]; }
  }

  // ---------------------------------------------------------------- walking a chain

  lemma PastEnd(ofs: nat, csz: nat, rest: nat, j: nat, n: nat)
    requires rest >= csz > 0 && rest + csz * j == ofs && j + 1 >= n
    ensures ofs / csz >= n
  {
    var over: nat := rest - csz;
    assert ofs == (j + 1) * csz + over;
    AtLeastQuotient(ofs, csz, j + 1, over);
  }

  lemma AtLeastQuotient(x: nat, c: nat, q: nat, over: nat)
    requires c > 0 && x == q * c + over
    ensures x / c >= q
  {
    assert over == (over / c) * c + over % c;
    assert (q + over / c) * c == q * c + (over / c) * c;
    MultipleUnique(x, c, q + over / c, over % c);
  }

  lemma OneFurther(csz: nat, j: nat)
    ensures csz * (j + 1) == csz * j + csz
  {}

  /** What the link of the cluster at position `j` says. */
  lemma LinkOf(F: seq<nat>, s: seq<nat>, j: nat, c: nat)
    requires IsChain(F, s) && j < |s| && c == s[j]
    ensures IsCluster(F, c)
    ensures if j + 1 < |s| then F[c] == s[j + 1] && IsCluster(F, F[c]) else F[c] >= |F|
  {
    assert LinkAt(F, s, j);
    if j + 1 < |s| { assert LinkAt(F, s, j + 1); }
  }

  /** The walk by clusters and the count by sectors come to the same. */
  lemma WalkedTo(g: Geometry, ofs: nat, rest: nat)
    requires ClusterSize(g.csize) && rest + ClusterBytes(g) * Quot(ofs / SS, g.csize) == ofs
    ensures rest / SS == Rem(ofs / SS, g.csize)
  {
    var k, n := ofs / SS, g.csize;
    QuotTimes(k, n);
    ProductOrder(Quot(k, n), n, SS);
    InCluster512(rest, Quot(k, n) * n, Rem(k, n), ofs);
  }

  lemma ProductOrder(q: nat, n: nat, m: nat)
    ensures (n * m) * q == (q * n) * m
  {
    assert (n * m) * q == q * (n * m);
  }

  lemma InCluster512(rest: nat, p: nat, r: nat, ofs: nat)
    requires rest + p * SS == ofs && ofs / SS == p + r
    ensures rest / SS == r
  {}

  // ---------------------------------------------------------------- round trip

  /** A name stored in a directory, whatever sectors and clusters it falls across, is read back with the place of
      its first entry, when reading starts there. */
  method NameRoundTrip(d: Dir, ghost name: seq<Unit>, fn: seq<Byte>, nt: Byte) returns (res: FResult, found: FResult)
    requires d.Valid() && GoodName(name) && NameIn(d.lfnbuf[..], name) && ShortName(fn)
    modifies d, d.lfnbuf, d.fs, d.fs.win
    ensures d.Valid()
    ensures res != FrOk ==> NoRun(d.Listing(), |d.Listing()|, Parts(|name|) + 1) && d.Full()
    ensures res == FrOk ==>
      found == FrOk && d.Positioned() && NameIn(d.lfnbuf[..], name) && d.blkOfs + 32 * Parts(|name|) == d.dptr
      && d.Listing()[d.at][..11] == fn
  {
    found := FrNoFile;
    ghost var t, k := d.Listing(), 0;
    var stored := d.BufferedName(name);
    res, k := d.Register(name, fn, nt, t);
    if res == FrOk { found := ReadInserted(d, t, name, fn, nt, k, d.dptr - 32 * Parts(|stored|)); }
  }

  method ReadInserted(d: Dir, ghost t: seq<DirEntry>, ghost name: seq<Unit>, ghost fn: seq<Byte>, ghost nt: Byte,
                      ghost k: nat, ofs: nat)
    returns (found: FResult)
    requires d.Valid() && Inserted(t, d.Listing(), k, name, fn, nt) && ofs == 32 * k
    modifies d, d.lfnbuf, d.fs, d.fs.win
    ensures d.Valid() && found == FrOk && d.Positioned() && NameIn(d.lfnbuf[..], name)
    ensures d.blkOfs + 32 * Parts(|name|) == d.dptr && d.Listing()[d.at][..11] == fn
  {
    ghost var want := Expected(t, d.Listing(), k, name, fn, nt, Scan(0xFF, 0xFF, d.blkOfs, d.lfnbuf[..]));
    found := ReadExpected(d, k, ofs, want);
  }

  /** What reading the name must come to. */
  lemma Expected(t: seq<DirEntry>, u: seq<DirEntry>, k: nat, name: seq<Unit>, fn: seq<Byte>, nt: Byte, st: Scan)
    returns (want: Found)
    requires Inserted(t, u, k, name, fn, nt) && |st.buf| == MAX_LFN + 1
    ensures want == ReadFrom(u, k, st) && k < |u| && want.FoundAt? && NameIn(want.scan.buf, name)
    ensures want.at < |u| && u[want.at][..11] == fn && want.scan.blkOfs + 32 * Parts(|name|) == 32 * want.at
  {
    want := ReadFrom(u, k, st);
    ReadsBack(u, k, name, st);
  }

  method ReadExpected(d: Dir, ghost k: nat, ofs: nat, ghost want: Found) returns (found: FResult)
    requires d.Valid() && k < |d.Listing()| && want.FoundAt? && ofs == 32 * k
    requires want == ReadFrom(d.Listing(), k, Scan(0xFF, 0xFF, d.blkOfs, d.lfnbuf[..]))
    modifies d, d.lfnbuf, d.fs, d.fs.win
    ensures d.Valid() && d.Listing() == old(d.Listing()) && found == FrOk && d.Positioned()
    ensures d.at == want.at && d.dptr == 32 * want.at
    ensures d.blkOfs == want.scan.blkOfs && d.lfnbuf[..] == want.scan.buf
  {
    BackTo(ofs, k, 0);
    var _ := d.Sdi(ofs);
    found := d.ReadLoop(d.Listing(), d.A(), want);
  }
}
