/** An open file (system/ff.c: f_read, f_write, f_lseek, f_truncate, f_sync). */
module FatFile {
  import opened Bits
  import opened FatDisk
  import opened FatChains
  import opened FatVolume
  import opened FatContent
  import opened FatSteps

  ghost function Opened(start: nat, size: nat): (h: Handle) {
    Handle(0, size, start, 0, 0, false, seq(512, i => 0))
  }

  /** What changes in the volume while an operation works on one file are measured against. */
  datatype Origin = Origin(before: Disc, chains: Chains, w: nat, sclust: nat, settled: bool)

  datatype Track = Track(seen: Disc, table: seq<nat>, before: Disc, w: nat, settled: bool)

  class File {
    const fs: Volume
    const buf: array<Byte>
    const canRead: bool
    const canWrite: bool
    var fptr: Word
    var objsize: Word
    var sclust: nat
    var clust: nat
    var sect: nat
    var dirty: bool
    var modified: bool
    const dirSect: nat
    const dirOfs: nat
    ghost var chain: seq<nat>     // the clusters of the file, in order

    /** The state `f_open` leaves for the directory entry at (ds, ofs) naming `start` and `size`. */
    constructor (vol: Volume, start: nat, size: Word, ds: nat, ofs: nat, read: bool, write: bool,
                 ghost clusters: seq<nat>)
      requires vol.Valid() && ofs + 32 <= SS
      requires FileCore(vol.g, vol.Disc(), vol.Fat(), vol.chains, clusters, Opened(start, size), vol.winsect, ds)
      ensures Valid() && fs == vol && fresh(buf) && !dirty && !modified && fptr == 0
      ensures objsize == size && sclust == start && chain == clusters && dirSect == ds && dirOfs == ofs
      ensures canRead == read && canWrite == write
      ensures Data() == Content(vol.g, vol.Disc(), clusters, size)
    {
      fs := vol;
      buf := new Byte[512](i => 0);
      canRead, canWrite := read, write;
      fptr, objsize, sclust, clust, sect := 0, size, start, 0, 0;
      dirty, modified := false, false;
      dirSect, dirOfs := ds, ofs;
      chain := clusters;
      new;
      assert buf[..] == Opened(start, size).buf;
    }

    ghost function H(): (h: Handle)
      requires buf.Length == 512
      reads this, buf
    {
      Handle(fptr, objsize, sclust, clust, sect, dirty, buf[..])
    }

    ghost predicate Core()
      reads this, buf, fs, fs.win
    {
      && fs.Valid() && buf.Length == 512 && buf != fs.win
      && FileCore(fs.g, fs.Disc(), fs.Fat(), fs.chains, chain, H(), fs.winsect, dirSect)
    }

    ghost predicate Valid()
      reads this, buf, fs, fs.win
    {
      Core() && CursorOk(fs.g, chain, fptr, clust, sect)
    }

    /** The disc as this file sees it: window and sector buffer laid over the medium. */
    ghost function Seen(): (v: Disc)
      requires Core()
      reads this, buf, fs, fs.win
      ensures |v| == |fs.disk|
    {
      View(fs.Disc(), H())
    }

    /** The bytes of the file. */
    ghost function Data(): (x: seq<Byte>)
      requires Core()
      reads this, buf, fs, fs.win
      ensures |x| == objsize
    {
      Content(fs.g, Seen(), chain, objsize)
    }

    /** The file still sees `t.seen` and the table is still `t.table`; since disc `t.before`, only sectors of the
        file and of the FAT changed, the window moved to the FAT at most and the buffer within the file. */
    ghost predicate Keeps(t: Track)
      requires Core()
      reads this, buf, fs, fs.win
    {
      && Seen() == t.seen && fs.Fat() == t.table && OnlyChain(fs.g, t.before, fs.Disc(), chain)
      && WindowFrom(fs.g, t.w, fs.winsect) && SectorFrom(fs.g, t.settled, chain, sect)
    }

    // ---------------------------------------------------------------- the sector buffer

    /** Writes the buffer back if it is dirty. */
    method Flush(ghost t: Track)
      requires Core() && Keeps(t)
      modifies this`dirty, fs`disk
      ensures Core() && !dirty && Keeps(t)
    {
      if dirty {
        ghost var d := fs.Disc();
        Flushed(fs.g, d, fs.Fat(), fs.chains, chain, H(), fs.winsect, dirSect);
        fs.DiskWrite(sect, 1, buf[..]);
        dirty := false;
        OnlyTrans(fs.g, t.before, d, fs.Disc(), chain);
      }
    }

    /** Makes the buffer show sector `s`, the `k`-th of the file. */
    method Fetch(s: nat, ghost k: nat, ghost t: Track)
      requires Core() && Keeps(t) && HasSector(fs.g, chain, k) && s == SectorOf(fs.g, chain, k)
      modifies this`dirty, this`sect, buf, fs`disk
      ensures Core() && Keeps(t) && sect == s
    {
      if sect != s {
        Flush(t);
        Load(s, k);
      }
      sect := s;
    }

    /** Reads sector `s` into the clean buffer. */
    method Load(s: nat, ghost k: nat)
      requires Core() && !dirty && HasSector(fs.g, chain, k) && s == SectorOf(fs.g, chain, k)
      modifies this`sect, buf
      ensures Core() && sect == s && Seen() == old(Seen()) && OnChain(fs.g, chain, sect)
    {
      CoreDistinct(fs.g, fs.Disc(), fs.Fat(), fs.chains, chain, H(), fs.winsect, dirSect);
      SectorInside(fs.g, |fs.disk|, chain, k);
      Fetched(fs.g, fs.Disc(), fs.Fat(), fs.chains, chain, H(), fs.winsect, dirSect, k, s);
      var x := fs.DiskRead(s, 1);
      forall i | 0 <= i < 512 { buf[i] := x[i]; }
      assert buf[..] == x;
      sect := s;
    }

    // ---------------------------------------------------------------- f_read

    /** The cluster after a cluster boundary, or the first one. */
    method FollowForRead()
      requires Valid() && fptr < objsize && fptr % SS == 0 && Rem(fptr / SS, fs.g.csize) == 0
      modifies this`clust, fs`disk, fs`wflag, fs`winsect, fs.win
      ensures Core() && Positioned(fs.g, chain, fptr, clust)
      ensures fs.Disc() == old(fs.Disc()) && WindowFrom(fs.g, old(fs.winsect), fs.winsect)
    {
      HasCurrent(fs.g, chain, fptr, objsize);
      CoreDistinct(fs.g, fs.Disc(), fs.Fat(), fs.chains, chain, H(), fs.winsect, dirSect);
      var c: nat;
      if fptr == 0 {
        FirstPositioned(fs.g, chain);
        c := sclust;
      } else {
        FollowsChain(fs.g, fs.Fat(), chain, fptr, clust, sect);
        c := fs.GetFat(clust);
        WindowMoved(fs.g, |fs.disk|, fs.Fat(), chain, old(fs.winsect), fs.winsect);
      }
      if c < 2 { assert false; }
      clust := c;
    }

    /** On a sector boundary: the sector of the byte at `fptr` and its number in the cluster. */
    method LocateForRead() returns (s: nat, csect: nat)
      requires Valid() && fptr < objsize && fptr % SS == 0
      modifies this`clust, fs`disk, fs`wflag, fs`winsect, fs.win
      ensures Core() && Positioned(fs.g, chain, fptr, clust)
      ensures fs.Disc() == old(fs.Disc()) && WindowFrom(fs.g, old(fs.winsect), fs.winsect)
      ensures s == SectorOf(fs.g, chain, fptr / SS) && csect == Rem(fptr / SS, fs.g.csize)
    {
      SectorInCluster(fs.g, fptr / SS);
      csect := And(fptr / SS, fs.g.csize - 1);
      if csect == 0 {
        FollowForRead();
      } else {
        Boundary(fs.g, chain, fptr, clust, sect);
      }
      s := CurrentSector(csect);
    }

    /** The sector `csect` of the current cluster. */
    method CurrentSector(csect: nat) returns (s: nat)
      requires Core() && Positioned(fs.g, chain, fptr, clust) && csect == Rem(fptr / SS, fs.g.csize)
      ensures s == SectorOf(fs.g, chain, fptr / SS)
    {
      CoreDistinct(fs.g, fs.Disc(), fs.Fat(), fs.chains, chain, H(), fs.winsect, dirSect);
      PositionedSector(fs.g, |fs.disk|, chain, fptr, clust);
      s := Clst2Sect(fs.g, clust);
      if s == 0 { assert false; }
      s := s + csect;
    }

    /** Reads `cc` whole sectors past the buffer, which supplies its own sector if it is dirty. */
    method ReadRun(s: nat, cc: nat) returns (x: seq<Byte>)
      requires Core() && Positioned(fs.g, chain, fptr, clust) && s == SectorOf(fs.g, chain, fptr / SS)
      requires fptr % SS == 0 && fptr + SS * cc <= objsize
      requires 0 < cc && Rem(fptr / SS, fs.g.csize) + cc <= fs.g.csize
      modifies this`fptr
      ensures Valid() && fptr == old(fptr) + SS * cc
      ensures x == Data()[old(fptr)..fptr] && Seen() == old(Seen())
    {
      x := ReadSectors(s, cc, fptr / SS);
      WholeSectors(fptr);
      AdvanceRun(fs.g, chain, fptr, cc, clust, sect);
      fptr := fptr + SS * cc;
    }

    method ReadSectors(s: nat, cc: nat, ghost k: nat) returns (x: seq<Byte>)
      requires Core() && HasSector(fs.g, chain, k) && s == SectorOf(fs.g, chain, k)
      requires 0 < cc && Rem(k, fs.g.csize) + cc <= fs.g.csize && SS * k + SS * cc <= objsize
      ensures x == Data()[SS * k..SS * k + SS * cc]
    {
      CoreDistinct(fs.g, fs.Disc(), fs.Fat(), fs.chains, chain, H(), fs.winsect, dirSect);
      RunAway(fs.g, |fs.disk|, fs.Fat(), chain, fs.winsect, k, cc);
      RunData(fs.g, fs.Disc(), chain, H(), k, cc, objsize);
      x := fs.DiskRead(s, cc);
      if dirty && s <= sect < s + cc {
        x := x[..SS * (sect - s)] + buf[..] + x[SS * (sect - s) + SS..];
      }
    }

    /** Reads from the buffer, which shows the sector of the byte at `fptr`. */
    method ReadPart(n: nat) returns (x: seq<Byte>)
      requires Core() && HasSector(fs.g, chain, fptr / SS) && sect == SectorOf(fs.g, chain, fptr / SS)
      requires fptr % SS + n <= SS && fptr + n <= objsize
      ensures x == Data()[fptr..fptr + n]
    {
      CoreDistinct(fs.g, fs.Disc(), fs.Fat(), fs.chains, chain, H(), fs.winsect, dirSect);
      PartData(fs.g, fs.Disc(), chain, H(), fptr, n, objsize);
      x := buf[fptr % SS..fptr % SS + n];
    }

    /** The rest of the transfer within the buffered sector. */
    method ReadRest(btr: nat) returns (x: seq<Byte>)
      requires Core() && Positioned(fs.g, chain, fptr, clust) && sect == SectorOf(fs.g, chain, fptr / SS)
      requires 0 < btr && fptr + btr <= objsize
      modifies this`fptr
      ensures Valid() && 0 < |x| <= btr && fptr == old(fptr) + |x|
      ensures x == Data()[old(fptr)..fptr] && Seen() == old(Seen())
    {
      var rcnt := if SS - fptr % SS > btr then btr else SS - fptr % SS;
      x := ReadPart(rcnt);
      AdvancePart(fs.g, chain, fptr, rcnt, clust, sect);
      fptr := fptr + rcnt;
    }

    /** On a sector boundary: reads whole sectors of one cluster at once, or prepares the buffer. */
    method ReadAligned(btr: nat, ghost t: Track) returns (x: seq<Byte>)
      requires Valid() && Keeps(t) && 0 < btr && fptr + btr <= objsize && fptr % SS == 0
      modifies this`fptr, this`clust, this`sect, this`dirty, buf, fs`disk, fs`wflag, fs`winsect, fs.win
      ensures Core() && Keeps(t) && |x| <= btr && fptr == old(fptr) + |x|
      ensures x == Data()[old(fptr)..fptr]
      ensures if x == [] then Positioned(fs.g, chain, fptr, clust) && sect == SectorOf(fs.g, chain, fptr / SS)
              else CursorOk(fs.g, chain, fptr, clust, sect)
    {
      var s, csect := LocateForRead();
      var cc := btr / SS;
      if cc > 0 {
        if csect + cc > fs.g.csize { cc := fs.g.csize - csect; }
        x := ReadRun(s, cc);
      } else {
        Fetch(s, fptr / SS, t);
        x := [];
      }
    }

    /** One round of the read loop. */
    method ReadChunk(btr: nat, ghost t: Track) returns (x: seq<Byte>)
      requires Valid() && Keeps(t) && 0 < btr && fptr + btr <= objsize
      modifies this`fptr, this`clust, this`sect, this`dirty, buf, fs`disk, fs`wflag, fs`winsect, fs.win
      ensures Valid() && Keeps(t) && 0 < |x| <= btr && fptr == old(fptr) + |x|
      ensures x == Data()[old(fptr)..fptr]
    {
      x := [];
      if fptr % SS == 0 {
        x := ReadAligned(btr, t);
      } else {
        Boundary(fs.g, chain, fptr, clust, sect);
      }
      if x == [] { x := ReadRest(btr); }
    }

    /** Reads up to `btr` bytes: exactly the bytes of the file from the pointer on, as many as there are. */
    method Read(btr: nat) returns (res: FResult, x: seq<Byte>)
      requires Valid()
      modifies this`fptr, this`clust, this`sect, this`dirty, buf, fs`disk, fs`wflag, fs`winsect, fs.win
      ensures Valid() && res == if canRead then FrOk else FrDenied
      ensures |x| == if !canRead then 0 else if btr > objsize - old(fptr) then objsize - old(fptr) else btr
      ensures fptr == old(fptr) + |x| && x == Data()[old(fptr)..fptr]
      ensures Data() == old(Data())
      ensures Keeps(Track(old(Seen()), old(fs.Fat()), old(fs.Disc()), old(fs.winsect), old(Current(fs.g, chain, sect))))
    {
      if !canRead { return FrDenied, []; }
      x := ReadAll(if btr > objsize - fptr then objsize - fptr else btr,
                   Track(Seen(), fs.Fat(), fs.Disc(), fs.winsect, Current(fs.g, chain, sect)));
      res := FrOk;
    }

    /** The read loop. */
    method ReadAll(btr: nat, ghost t: Track) returns (x: seq<Byte>)
      requires Valid() && Keeps(t) && fptr + btr <= objsize
      modifies this`fptr, this`clust, this`sect, this`dirty, buf, fs`disk, fs`wflag, fs`winsect, fs.win
      ensures Valid() && Keeps(t)
      ensures fptr == old(fptr) + btr && x == Data()[old(fptr)..fptr]
    {
      var rest := btr;
      x := [];
      ghost var p, data := fptr, Content(fs.g, t.seen, chain, objsize);
      while rest > 0
        invariant 0 <= rest && Valid() && Keeps(t)
        invariant |x| + rest == btr && fptr == p + |x|
        invariant x == data[p..fptr]
        decreases rest
      {
        ghost var m := fptr;
        var y := ReadChunk(rest, t);
        rest := rest - |y|;
        x := x + y;
        SlicesJoin(data, p, m, fptr);
      }
    }

    // ---------------------------------------------------------------- f_write

    /** Since `o`, only this file's chain and sectors changed. */
    ghost predicate Isolated(o: Origin)
      requires Core()
      reads this, buf, fs, fs.win
    {
      Since(o, fs.g, fs.Disc(), fs.chains, fs.winsect, sclust, chain) && SectorFrom(fs.g, o.settled, chain, sect)
    }

    /** The cluster after position `j` of the chain, whose cluster is `p`, added if the chain ends there; the
        first cluster when `p` is 0. Returns 0 when no cluster is free. */
    method NextCluster(p: nat, ghost j: int, ghost o: Origin) returns (r: nat)
      requires Core() && Isolated(o) && AtLink(chain, j, p)
      modifies this`chain, this`sclust, fs`disk, fs`wflag, fs`winsect, fs.win
      modifies fs`freeClst, fs`lastClst, fs`fsiFlag, fs`chains
      ensures Core() && Isolated(o) && Data() == old(Data())
      ensures if r == 0 then chain == old(chain) && NoFree(fs.Fat()) && j == |chain| - 1
              else chain == (if j == |old(chain)| - 1 then old(chain) + [r] else old(chain)) && chain[j + 1] == r
    {
      ghost var b := Before(fs.Disc(), fs.Fat(), chain, H(), fs.winsect, sclust);
      r := Allocate(p, j);
      if r != 0 {
        if sclust == 0 { sclust := r; }
      }
      Settle(p, j, r, b, o);
    }

    /** `create_chain` from position `j` of the chain. */
    method Allocate(p: nat, ghost j: int) returns (r: nat)
      requires Core() && AtLink(chain, j, p)
      modifies fs`disk, fs`wflag, fs`winsect, fs.win, fs`freeClst, fs`lastClst, fs`fsiFlag
      ensures fs.Valid() && Allocated(fs.g, old(fs.Disc()), fs.Disc(), old(fs.Fat()), fs.Fat(), chain, p, j, r)
      ensures InFat(fs.g, fs.winsect) || fs.winsect == old(fs.winsect)
    {
      CoreDistinct(fs.g, fs.Disc(), fs.Fat(), fs.chains, chain, H(), fs.winsect, dirSect);
      NoReserved(fs.Fat(), fs.chains);
      LinkOf(fs.Fat(), chain, j, p);
      r := fs.CreateChain(p);
      if r == 1 { assert false; }
    }

    /** The file takes in the cluster just allocated, if there is one. */
    ghost method Settle(p: nat, j: int, r: nat, b: Before, o: Origin)
      requires fs.Valid() && buf.Length == 512 && buf != fs.win && AtLink(chain, j, p)
      requires FileCore(fs.g, b.disc, b.table, fs.chains, chain, b.h, b.w, dirSect) && b.chain == chain
      requires H() == if r == 0 then b.h else Started(b.h, r)
      requires Allocated(fs.g, b.disc, fs.Disc(), b.table, fs.Fat(), chain, p, j, r)
      requires InFat(fs.g, fs.winsect) || fs.winsect == b.w
      requires Since(o, fs.g, b.disc, fs.chains, b.w, b.h.sclust, chain) && SectorFrom(fs.g, o.settled, chain, sect)
      modifies this`chain, fs`chains
      ensures Core() && Isolated(o)
      ensures Data() == Content(fs.g, View(b.disc, b.h), old(chain), objsize)
      ensures chain == if r != 0 && j == |old(chain)| - 1 then old(chain) + [r] else old(chain)
    {
      CoreDistinct(fs.g, b.disc, b.table, fs.chains, chain, b.h, b.w, dirSect);
      StartedAlready(b.table, chain, b.h, j, r);
      SameStart(fs.Disc(), b.h, r);
      if r != 0 && j == |chain| - 1 {
        Adopt(p, r, b, o);
      } else {
        WindowMoved(fs.g, |fs.disk|, fs.Fat(), chain, b.w, fs.winsect);
      }
    }

    ghost method Adopt(p: nat, r: nat, b: Before, o: Origin)
      requires fs.Valid() && buf.Length == 512 && buf != fs.win
      requires FileCore(fs.g, b.disc, b.table, fs.chains, chain, b.h, b.w, dirSect)
      requires H() == Started(b.h, r) && p == LastOf(chain)
      requires SameBeside(fs.g, fs.Disc(), b.disc) && (InFat(fs.g, fs.winsect) || fs.winsect == b.w)
      requires IsCluster(b.table, r) && b.table[r] == 0 && (p == 0 || IsCluster(b.table, p))
      requires fs.Fat() == Linked(b.table, p, r, Eoc(fs.g))
      requires Since(o, fs.g, b.disc, fs.chains, b.w, b.h.sclust, chain) && SectorFrom(fs.g, o.settled, chain, sect)
      modifies this`chain, fs`chains
      ensures Core() && Isolated(o) && chain == old(chain) + [r]
      ensures Data() == Content(fs.g, View(b.disc, b.h), old(chain), objsize)
    {
      ghost var longer := chain + [r];
      Grew(fs.g, b.disc, fs.Disc(), b.table, fs.chains, chain, b.h, b.w, fs.winsect, dirSect, r);
      CoreDistinct(fs.g, b.disc, b.table, fs.chains, chain, b.h, b.w, dirSect);
      SameContent(fs.g, b.disc, fs.Disc(), chain, longer, b.h);
      NewOrigin(fs.g, b.disc, fs.Disc(), o, b.table, fs.chains, b.h, chain, r, b.w, fs.winsect);
      SectorStays(fs.g, o.settled, chain, longer, sect);
      SameStart(fs.Disc(), b.h, r);
      fs.chains := WithChain(fs.chains, sclust, longer);
      chain := longer;
    }

    /** On a cluster boundary: the cluster of the byte at `fptr`, allocating one past the end of the chain.
        Fails when none is free. */
    method FollowForWrite(ghost o: Origin) returns (ok: bool)
      requires Valid() && Isolated(o) && fptr % SS == 0 && Rem(fptr / SS, fs.g.csize) == 0
      modifies this`chain, this`sclust, this`clust, fs`disk, fs`wflag, fs`winsect, fs.win
      modifies fs`freeClst, fs`lastClst, fs`fsiFlag, fs`chains
      ensures Core() && Isolated(o) && Data() == old(Data())
      ensures if ok then Positioned(fs.g, chain, fptr, clust) else Valid() && NoFree(fs.Fat())
      ensures if ok then Stretched(fs.g, old(|chain|), chain, fptr)
              else chain == old(chain) && AtEnd(fs.g, chain, fptr)
    {
      var c := if fptr == 0 then sclust else 0;
      if c == 0 {
        c := StretchHere(o);
        if c == 0 { return false; }
      } else {
        CoreDistinct(fs.g, fs.Disc(), fs.Fat(), fs.chains, chain, H(), fs.winsect, dirSect);
        FirstPositioned(fs.g, chain);
      }
      clust := c;
      return true;
    }

    method StretchHere(ghost o: Origin) returns (c: nat)
      requires Valid() && Isolated(o) && fptr % SS == 0
      requires Rem(fptr / SS, fs.g.csize) == 0 && (fptr == 0 ==> sclust == 0)
      modifies this`chain, this`sclust, fs`disk, fs`wflag, fs`winsect, fs.win
      modifies fs`freeClst, fs`lastClst, fs`fsiFlag, fs`chains
      ensures Core() && Isolated(o) && Data() == old(Data())
      ensures if c != 0 then Positioned(fs.g, chain, fptr, c) else Valid() && NoFree(fs.Fat())
      ensures if c != 0 then Stretched(fs.g, old(|chain|), chain, fptr)
              else chain == old(chain) && AtEnd(fs.g, chain, fptr)
    {
      BoundaryLink(fs.g, chain, fptr, clust, sect);
      c := NextCluster(if fptr == 0 then 0 else clust, LinkBefore(fs.g, fptr), o);
    }

    /** On a sector boundary: the sector of the byte at `fptr` and its number in the cluster; the buffer is
        written back. */
    method LocateForWrite(ghost o: Origin) returns (ok: bool, s: nat, csect: nat)
      requires Valid() && Isolated(o) && fptr % SS == 0
      modifies this`chain, this`sclust, this`clust, this`dirty, fs`disk, fs`wflag, fs`winsect, fs.win
      modifies fs`freeClst, fs`lastClst, fs`fsiFlag, fs`chains
      ensures Core() && Isolated(o) && Data() == old(Data())
      ensures !ok ==> Valid() && NoFree(fs.Fat())
      ensures ok ==> !dirty && Positioned(fs.g, chain, fptr, clust)
      ensures ok ==> s == SectorOf(fs.g, chain, fptr / SS) && csect == Rem(fptr / SS, fs.g.csize)
      ensures if ok then Stretched(fs.g, old(|chain|), chain, fptr)
              else chain == old(chain) && AtEnd(fs.g, chain, fptr)
    {
      SectorInCluster(fs.g, fptr / SS);
      csect := And(fptr / SS, fs.g.csize - 1);
      s := 0;
      if csect == 0 {
        ok := FollowForWrite(o);
        if !ok { return; }
      } else {
        Boundary(fs.g, chain, fptr, clust, sect);
        ok := true;
      }
      FlushFor(o);
      s := CurrentSector(csect);
    }

    method FlushFor(ghost o: Origin)
      requires Core() && Isolated(o)
      modifies this`dirty, fs`disk
      ensures Core() && Isolated(o) && Data() == old(Data()) && !dirty
    {
      Flush(Track(Seen(), fs.Fat(), o.before, fs.winsect, o.settled));
    }

    /** Writes whole sectors past the buffer; a buffered sector among them is refilled from the data. */
    method WriteRun(s: nat, cc: nat, x: seq<Byte>, ghost o: Origin)
      requires Core() && Isolated(o) && RunReady(fs.g, chain, H(), cc, x)
      requires s == SectorOf(fs.g, chain, fptr / SS)
      modifies this`fptr, this`objsize, this`dirty, buf, fs`disk
      ensures Valid() && Isolated(o) && fptr == old(fptr) + |x|
      ensures Data() == Splice(old(Data()), old(fptr), x)
      ensures LastByte(fs.g, old(fptr), fptr)
    {
      ghost var d, h := fs.Disc(), H();
      RunLastByte(fs.g, fptr, cc);
      RunPlace(fs.g, d, fs.Fat(), fs.chains, chain, h, fs.winsect, dirSect, cc, x);
      WroteRun(fs.g, d, fs.Fat(), fs.chains, chain, h, fs.winsect, dirSect, cc, x);
      WroteRunContent(fs.g, d, fs.Fat(), fs.chains, chain, h, fs.winsect, dirSect, cc, x);
      OnlyTrans(fs.g, o.before, d, Written(d, s, cc, x), chain);
      TransferRun(s, cc, x);
    }

    method TransferRun(s: nat, cc: nat, x: seq<Byte>)
      requires fs.Valid() && buf.Length == 512 && buf != fs.win && |x| == SS * cc
      requires fs.g.database <= s && s + cc <= |fs.disk| && !(s <= fs.winsect < s + cc)
      requires fptr + |x| < 0x1_0000_0000
      modifies this`fptr, this`objsize, this`dirty, buf, fs`disk
      ensures fs.Valid() && fs.Disc() == Written(old(fs.Disc()), s, cc, x) && fs.Fat() == old(fs.Fat())
      ensures H() == Moved(Refilled(old(H()), s, cc, x), |x|)
    {
      fs.DiskWrite(s, cc, x);
      Refill(s, cc, x);
      fptr := fptr + |x|;
      objsize := if fptr > objsize then fptr else objsize;
    }

    method Refill(s: nat, cc: nat, x: seq<Byte>)
      requires buf.Length == 512 && |x| == SS * cc
      modifies this`dirty, buf
      ensures H() == Refilled(old(H()), s, cc, x)
    {
      if s <= sect < s + cc {
        ghost var y := x[SS * (sect - s)..SS * (sect - s) + SS];
        forall i | 0 <= i < 512 { buf[i] := x[SS * (sect - s) + i]; }
        assert buf[..] == y;
        dirty := false;
      }
    }

    /** Puts bytes for sector `s` into the buffer. */
    method CopyIn(s: nat, x: seq<Byte>, ghost o: Origin)
      requires Core() && Isolated(o) && Positioned(fs.g, chain, fptr, clust)
      requires s == SectorOf(fs.g, chain, fptr / SS)
      requires sect == s || (!dirty && fptr == objsize && fptr % SS == 0)
      requires 0 < |x| && fptr % SS + |x| <= SS && fptr + |x| < 0x1_0000_0000
      modifies this`fptr, this`objsize, this`sect, this`dirty, buf
      ensures Valid() && Isolated(o) && fptr == old(fptr) + |x|
      ensures Data() == Splice(old(Data()), old(fptr), x)
      ensures LastByte(fs.g, old(fptr), fptr)
    {
      WrotePart(fs.g, fs.Disc(), fs.Fat(), fs.chains, chain, H(), fs.winsect, dirSect, s, x);
      CoreDistinct(fs.g, fs.Disc(), fs.Fat(), fs.chains, chain, H(), fs.winsect, dirSect);
      SectorInside(fs.g, |fs.disk|, chain, fptr / SS);
      PatchBuffer(s, x);
    }

    method PatchBuffer(s: nat, x: seq<Byte>)
      requires buf.Length == 512 && fptr % SS + |x| <= SS && fptr + |x| < 0x1_0000_0000
      modifies this`fptr, this`objsize, this`sect, this`dirty, buf
      ensures H() == Copied(old(H()), s, x)
    {
      ghost var was := buf[..];
      var k := fptr % SS;
      forall i | 0 <= i < |x| { buf[k + i] := x[i]; }
      assert buf[..] == Patch(was, k, x);
      sect := s;
      dirty := true;
      fptr := fptr + |x|;
      objsize := if fptr > objsize then fptr else objsize;
    }

    /** On a sector boundary: writes whole sectors of one cluster at once, or makes the buffer ready for
        sector `s`. Nothing is done when no cluster is free. */
    method WriteAligned(x: seq<Byte>, ghost o: Origin) returns (ok: bool, n: nat, s: nat)
      requires Valid() && Isolated(o) && fptr % SS == 0 && 0 < |x| && fptr + |x| < 0x1_0000_0000
      modifies this`chain, this`sclust, this`clust, this`fptr, this`objsize, this`sect, this`dirty, buf
      modifies fs`disk, fs`wflag, fs`winsect, fs.win, fs`freeClst, fs`lastClst, fs`fsiFlag, fs`chains
      ensures Core() && Isolated(o) && n <= |x| && fptr == old(fptr) + n
      ensures Data() == Splice(old(Data()), old(fptr), x[..n])
      ensures !ok ==> n == 0 && Valid() && NoFree(fs.Fat())
      ensures ok && n > 0 ==> Valid() && LastByte(fs.g, old(fptr), fptr)
      ensures ok && n == 0 ==>
        Positioned(fs.g, chain, fptr, clust) && s == SectorOf(fs.g, chain, fptr / SS)
        && (sect == s || (!dirty && fptr == objsize))
      ensures if ok then Stretched(fs.g, old(|chain|), chain, old(fptr))
              else chain == old(chain) && AtEnd(fs.g, chain, fptr)
    {
      n := 0;
      var csect;
      SpliceNothing(Data(), fptr);
      ok, s, csect := LocateForWrite(o);
      if !ok { return; }
      var cc := |x| / SS;
      if cc > 0 {
        if csect + cc > fs.g.csize { cc := fs.g.csize - csect; }
        n := SS * cc;
        WriteRun(s, cc, x[..n], o);
        return;
      }
      if sect != s && fptr < objsize { LoadFor(s, o); }
    }

    method LoadFor(s: nat, ghost o: Origin)
      requires Core() && Isolated(o) && !dirty && HasSector(fs.g, chain, fptr / SS)
      requires s == SectorOf(fs.g, chain, fptr / SS)
      modifies this`sect, buf
      ensures Core() && Isolated(o) && sect == s && Data() == old(Data())
    {
      Load(s, fptr / SS);
    }

    /** Gets ready to write at `fptr`: unless whole sectors were written already, afterwards bytes for sector `s`
        may go into the buffer. */
    method Approach(x: seq<Byte>, ghost o: Origin) returns (ok: bool, n: nat, s: nat)
      requires Valid() && Isolated(o) && 0 < |x| && fptr + |x| < 0x1_0000_0000
      modifies this`chain, this`sclust, this`clust, this`fptr, this`objsize, this`sect, this`dirty, buf
      modifies fs`disk, fs`wflag, fs`winsect, fs.win, fs`freeClst, fs`lastClst, fs`fsiFlag, fs`chains
      ensures Core() && Isolated(o) && n <= |x| && fptr == old(fptr) + n
      ensures Data() == Splice(old(Data()), old(fptr), x[..n])
      ensures !ok ==> n == 0 && Valid() && NoFree(fs.Fat())
      ensures ok && n > 0 ==> Valid() && LastByte(fs.g, old(fptr), fptr)
      ensures ok && n == 0 ==>
        Positioned(fs.g, chain, fptr, clust) && s == SectorOf(fs.g, chain, fptr / SS)
        && (sect == s || (!dirty && fptr == objsize && fptr % SS == 0))
      ensures if ok then Stretched(fs.g, old(|chain|), chain, old(fptr))
              else chain == old(chain) && AtEnd(fs.g, chain, fptr)
    {
      if fptr % SS == 0 {
        ok, n, s := WriteAligned(x, o);
      } else {
        Boundary(fs.g, chain, fptr, clust, sect);
        SpliceNothing(Data(), fptr);
        ok, n, s := true, 0, sect;
      }
    }

    /** One round of the write loop: the number of bytes written, or 0 when no cluster is free. */
    method WriteChunk(x: seq<Byte>, ghost o: Origin) returns (n: nat)
      requires Valid() && Isolated(o) && 0 < |x| && fptr + |x| < 0x1_0000_0000
      modifies this`chain, this`sclust, this`clust, this`fptr, this`objsize, this`sect, this`dirty, buf
      modifies fs`disk, fs`wflag, fs`winsect, fs.win, fs`freeClst, fs`lastClst, fs`fsiFlag, fs`chains
      ensures Valid() && Isolated(o) && n <= |x| && fptr == old(fptr) + n
      ensures Data() == Splice(old(Data()), old(fptr), x[..n])
      ensures n == 0 ==> NoFree(fs.Fat())
      ensures |chain| == Max(old(|chain|), ClustersFor(fs.g, fptr)) && (n == 0 ==> AtEnd(fs.g, chain, fptr))
    {
      var ok, s;
      ghost var data, p := Data(), fptr;
      ClustersThere(fs.g, chain, objsize, fptr);
      SpliceNothing(data, p);
      ok, n, s := Approach(x, o);
      if !ok || n > 0 { return; }
      assert x[..0] == [];
      n := CopyPart(s, x, o);
    }

    /** As much as fits into the buffered sector. */
    method CopyPart(s: nat, x: seq<Byte>, ghost o: Origin) returns (n: nat)
      requires Core() && Isolated(o) && Positioned(fs.g, chain, fptr, clust)
      requires s == SectorOf(fs.g, chain, fptr / SS)
      requires sect == s || (!dirty && fptr == objsize && fptr % SS == 0)
      requires 0 < |x| && fptr + |x| < 0x1_0000_0000
      modifies this`fptr, this`objsize, this`sect, this`dirty, buf
      ensures Valid() && Isolated(o) && 0 < n <= |x| && fptr == old(fptr) + n
      ensures Data() == Splice(old(Data()), old(fptr), x[..n])
      ensures LastByte(fs.g, old(fptr), fptr)
    {
      n := if SS - fptr % SS > |x| then |x| else SS - fptr % SS;
      CopyIn(s, x[..n], o);
    }

    /** Writes as much of `x` as fits below 2^32 - 1 bytes and onto free clusters: exactly the first `bw` bytes
        land in the file, and fewer than that limit only when no cluster is free. */
    method Write(x: seq<Byte>) returns (res: FResult, bw: nat)
      requires Valid() && |x| < 0x1_0000_0000
      modifies this`chain, this`sclust, this`clust, this`fptr, this`objsize, this`sect, this`dirty, this`modified, buf
      modifies fs`disk, fs`wflag, fs`winsect, fs.win, fs`freeClst, fs`lastClst, fs`fsiFlag, fs`chains
      ensures Valid() && res == if canWrite then FrOk else FrDenied
      ensures Isolated(old(Start()))
      ensures bw <= |x| && old(fptr) + bw < 0x1_0000_0000 && (!canWrite ==> bw == 0)
      ensures fptr == old(fptr) + bw && Data() == Splice(old(Data()), old(fptr), x[..bw])
      ensures canWrite && bw < |x| ==> fptr == 0xFFFF_FFFF || NoFree(fs.Fat())
      ensures modified == (canWrite || old(modified))
      ensures |chain| == Max(old(|chain|), ClustersFor(fs.g, fptr))
      ensures canWrite && bw < |x| ==> fptr == 0xFFFF_FFFF || AtEnd(fs.g, chain, fptr)
    {
      OriginIsolated();
      if !canWrite {
        NothingWritten(x);
        return FrDenied, 0;
      }
      var btw := ClipLength(|x|);
      bw := WriteAll(x[..btw], Start());
      assert x[..btw][..bw] == x[..bw];
      modified := true;
      res := FrOk;
    }

    lemma NothingWritten(x: seq<Byte>)
      requires Valid()
      ensures Data() == Splice(Data(), fptr, x[..0]) && |chain| == Max(|chain|, ClustersFor(fs.g, fptr))
    {
      SpliceNothing(Data(), fptr);
      assert x[..0] == [];
      ClustersThere(fs.g, chain, objsize, fptr);
    }

    /** A write that would reach 2^32 bytes is cut so that the file stays below. */
    method ClipLength(n: nat) returns (btw: nat)
      requires n < 0x1_0000_0000
      ensures btw == if fptr + n < 0x1_0000_0000 then n else 0xFFFF_FFFF - fptr
    {
      btw := n;
      if (fptr + btw) % 0x1_0000_0000 < fptr { btw := 0xFFFF_FFFF - fptr; }
    }

    ghost function Start(): (o: Origin)
      requires Core()
      reads this, buf, fs, fs.win
    {
      Origin(fs.Disc(), fs.chains, fs.winsect, sclust, Current(fs.g, chain, sect))
    }

    /** Nothing has changed yet. */
    lemma OriginIsolated()
      requires Core()
      ensures Isolated(Start())
    {
      SameWithChain(fs.chains, sclust, chain);
    }

    /** Of `x`, `bw` bytes are written over `data` from position `p` on; the chain had `was` clusters. */
    ghost predicate Writing(data: seq<Byte>, p: nat, x: seq<Byte>, bw: nat, was: nat, o: Origin)
      reads this, buf, fs, fs.win
    {
      && Valid() && Isolated(o) && bw <= |x| && fptr == p + bw && p <= |data| && p + |x| < 0x1_0000_0000
      && Data() == Splice(data, p, x[..bw]) && |chain| == Max(was, ClustersFor(fs.g, fptr))
    }

    /** The write loop. */
    method WriteAll(x: seq<Byte>, ghost o: Origin) returns (bw: nat)
      requires Valid() && Isolated(o) && fptr + |x| < 0x1_0000_0000
      modifies this`chain, this`sclust, this`clust, this`fptr, this`objsize, this`sect, this`dirty, buf
      modifies fs`disk, fs`wflag, fs`winsect, fs.win, fs`freeClst, fs`lastClst, fs`fsiFlag, fs`chains
      ensures Valid() && Isolated(o) && bw <= |x| && fptr == old(fptr) + bw
      ensures Data() == Splice(old(Data()), old(fptr), x[..bw])
      ensures |chain| == Max(old(|chain|), ClustersFor(fs.g, fptr))
      ensures bw < |x| ==> NoFree(fs.Fat()) && AtEnd(fs.g, chain, fptr)
    {
      bw := 0;
      ghost var data, p, was := Data(), fptr, |chain|;
      WritingStarts(x, o);
      while bw < |x|
        invariant Writing(data, p, x, bw, was, o)
        decreases |x| - bw
      {
        var n := WriteRest(data, p, x, bw, was, o);
        if n == 0 { return; }
        bw := bw + n;
      }
    }

    lemma WritingStarts(x: seq<Byte>, o: Origin)
      requires Valid() && Isolated(o) && fptr + |x| < 0x1_0000_0000
      ensures Writing(Data(), fptr, x, 0, |chain|, o)
    {
      SpliceNothing(Data(), fptr);
      ClustersThere(fs.g, chain, objsize, fptr);
    }

    method WriteRest(ghost data: seq<Byte>, ghost p: nat, x: seq<Byte>, bw: nat, ghost was: nat, ghost o: Origin)
      returns (n: nat)
      requires Writing(data, p, x, bw, was, o) && bw < |x|
      modifies this`chain, this`sclust, this`clust, this`fptr, this`objsize, this`sect, this`dirty, buf
      modifies fs`disk, fs`wflag, fs`winsect, fs.win, fs`freeClst, fs`lastClst, fs`fsiFlag, fs`chains
      ensures bw + n <= |x| && Writing(data, p, x, bw + n, was, o)
      ensures n == 0 ==> NoFree(fs.Fat()) && AtEnd(fs.g, chain, fptr)
    {
      n := WriteChunk(x[bw..], o);
      SpliceMore(data, p, x, bw, n);
      ClustersMono(fs.g, p + bw, fptr);
    }

    // ---------------------------------------------------------------- f_lseek

    /** Is byte `x` in the cluster of byte `y` of the file or a later one? */
    method SameOrLater(x: Word, y: Word) returns (r: bool)
      requires ClusterSize(fs.g.csize)
      ensures r <==> Quot(x / SS, fs.g.csize) >= Quot(y / SS, fs.g.csize)
    {
      ClusterOf(fs.g, x);
      ClusterOf(fs.g, y);
      var bcs := fs.g.csize * SS;
      r := x / bcs >= y / bcs;
    }

    method StartOfCluster(y: Word) returns (r: nat)
      requires ClusterSize(fs.g.csize)
      ensures r == ClusterStart(fs.g, y)
    {
      ClusterMask(fs.g, y);
      var bcs := fs.g.csize * SS;
      r := And(y, 0x1_0000_0000 - bcs);
    }

    /** Where the walk to `target` starts: the current cluster if the target is not before it, otherwise the
        first one, allocated if there is none. Returns cluster 0 when that fails. */
    method SeekStart(target: Word, ghost o: Origin) returns (pos: nat, clst: nat)
      requires Valid() && Isolated(o) && target > 0
      modifies this`chain, this`sclust, this`clust, fs`disk, fs`wflag, fs`winsect, fs.win
      modifies fs`freeClst, fs`lastClst, fs`fsiFlag, fs`chains
      ensures Core() && Isolated(o) && Data() == old(Data())
      ensures if clst == 0 then pos == 0 && objsize == 0 && NoFree(fs.Fat())
              else AtCluster(fs.g, chain, pos, clst) && clust == clst && pos < target
      ensures if clst == 0 then chain == old(chain) == [] else Stretched(fs.g, old(|chain|), chain, pos)
    {
      var near := false;
      if fptr > 0 { near := SameOrLater(target - 1, fptr - 1); }
      if near {
        pos, clst := CurrentCluster(target);
      } else {
        pos := 0;
        clst := FirstCluster(o);
      }
      clust := clst;
    }

    method CurrentCluster(target: Word) returns (pos: nat, clst: nat)
      requires Valid() && 0 < fptr && 0 < target
      requires Quot((target - 1) / SS, fs.g.csize) >= Quot((fptr - 1) / SS, fs.g.csize)
      ensures AtCluster(fs.g, chain, pos, clst) && clst == clust != 0 && pos < target
    {
      CoreDistinct(fs.g, fs.Disc(), fs.Fat(), fs.chains, chain, H(), fs.winsect, dirSect);
      CurrentStart(fs.g, chain, fptr, clust, sect);
      CurrentNotZero(fs.g, chain, fptr, clust, sect);
      StartBefore(fs.g, fptr - 1, target - 1);
      pos := StartOfCluster(fptr - 1);
      clst := clust;
    }

    /** The first cluster of the file, allocated if there is none. */
    method FirstCluster(ghost o: Origin) returns (clst: nat)
      requires Valid() && Isolated(o)
      modifies this`chain, this`sclust, fs`disk, fs`wflag, fs`winsect, fs.win
      modifies fs`freeClst, fs`lastClst, fs`fsiFlag, fs`chains
      ensures Core() && Isolated(o) && Data() == old(Data())
      ensures if clst == 0 then objsize == 0 && NoFree(fs.Fat()) else AtCluster(fs.g, chain, 0, clst)
      ensures if clst == 0 then chain == old(chain) == [] else Stretched(fs.g, old(|chain|), chain, 0)
    {
      CoreDistinct(fs.g, fs.Disc(), fs.Fat(), fs.chains, chain, H(), fs.winsect, dirSect);
      clst := sclust;
      if clst == 0 {
        clst := NextCluster(0, -1, o);
      } else {
        FirstPositioned(fs.g, chain);
      }
    }

    /** From a cluster to the one after it, in write mode adding one at the end of the chain. */
    method StepCluster(pos: nat, clst: nat, ghost o: Origin) returns (r: nat)
      requires Core() && Isolated(o) && AtCluster(fs.g, chain, pos, clst)
      requires canWrite || HasSector(fs.g, chain, (pos + ClusterBytes(fs.g)) / SS)
      modifies this`chain, this`sclust, fs`disk, fs`wflag, fs`winsect, fs.win
      modifies fs`freeClst, fs`lastClst, fs`fsiFlag, fs`chains
      ensures Core() && Isolated(o) && Data() == old(Data())
      ensures if r == 0
        then NoFree(fs.Fat()) && AtCluster(fs.g, chain, pos, clst) && Quot(pos / SS, fs.g.csize) == |chain| - 1
              else AtCluster(fs.g, chain, pos + ClusterBytes(fs.g), r)
      ensures if r == 0 then chain == old(chain) else Stretched(fs.g, old(|chain|), chain, pos + ClusterBytes(fs.g))
    {
      NextStart(fs.g, chain, pos, clst);
      if canWrite {
        r := NextCluster(clst, Quot(pos / SS, fs.g.csize), o);
      } else {
        r := FollowLink(clst, Quot(pos / SS, fs.g.csize), o);
      }
    }

    method FollowLink(clst: nat, ghost j: nat, ghost o: Origin) returns (r: nat)
      requires Core() && Isolated(o) && j + 1 < |chain| && clst == chain[j]
      modifies fs`disk, fs`wflag, fs`winsect, fs.win
      ensures Core() && Isolated(o) && Data() == old(Data()) && r == chain[j + 1] && r != 0
    {
      CoreDistinct(fs.g, fs.Disc(), fs.Fat(), fs.chains, chain, H(), fs.winsect, dirSect);
      LinkOf(fs.Fat(), chain, j, clst);
      r := fs.GetFat(clst);
      WindowMoved(fs.g, |fs.disk|, fs.Fat(), chain, old(fs.winsect), fs.winsect);
      if r <= 1 || r >= fs.g.nFatent { assert false; }
    }

    /** Follows the chain from the cluster at `from` to `target`, or to the end of the chain when it cannot be
        stretched that far. Returns the position reached and its sector. */
    method SeekLoop(target: Word, from: nat, ghost was: nat, ghost o: Origin) returns (p: nat, nsect: nat)
      requires Core() && Isolated(o) && AtCluster(fs.g, chain, from, clust) && from < target
      requires Stretched(fs.g, was, chain, from)
      requires canWrite || target <= objsize
      modifies this`chain, this`sclust, this`clust, fs`disk, fs`wflag, fs`winsect, fs.win
      modifies fs`freeClst, fs`lastClst, fs`fsiFlag, fs`chains
      ensures Core() && Isolated(o) && Data() == old(Data())
      ensures Arrived(fs.g, chain, p, clust) && p <= target
      ensures p < target ==> NoFree(fs.Fat()) && p >= objsize
      ensures p % SS != 0 ==> HasSector(fs.g, chain, p / SS) && nsect == SectorOf(fs.g, chain, p / SS)
      ensures |chain| == Max(was, ClustersFor(fs.g, p)) && (p < target ==> AtEnd(fs.g, chain, p))
    {
      var bcs := fs.g.csize * SS;
      var pos, ofs := from, target - from;
      while ofs > bcs
        invariant Core() && Isolated(o) && Data() == old(Data())
        invariant pos + ofs == target && ofs > 0 && AtCluster(fs.g, chain, pos, clust)
        invariant Stretched(fs.g, was, chain, pos)
        decreases ofs
      {
        var ok := SeekNext(pos, target, was, o);
        if !ok { return pos + bcs, 0; }
        ofs, pos := ofs - bcs, pos + bcs;
      }
      p := pos + ofs;
      InsideLastByte(fs.g, pos, ofs);
      nsect := SeekSector(pos, ofs);
    }

    /** One round of the walk, from the cluster at `pos` to the next one. */
    method SeekNext(pos: nat, target: Word, ghost was: nat, ghost o: Origin) returns (ok: bool)
      requires Core() && Isolated(o) && AtCluster(fs.g, chain, pos, clust) && pos + ClusterBytes(fs.g) < target
      requires Stretched(fs.g, was, chain, pos)
      requires canWrite || target <= objsize
      modifies this`chain, this`sclust, this`clust, fs`disk, fs`wflag, fs`winsect, fs.win
      modifies fs`freeClst, fs`lastClst, fs`fsiFlag, fs`chains
      ensures Core() && Isolated(o) && Data() == old(Data())
      ensures ok ==> AtCluster(fs.g, chain, pos + ClusterBytes(fs.g), clust)
      ensures !ok ==> Arrived(fs.g, chain, pos + ClusterBytes(fs.g), clust) && NoFree(fs.Fat())
                      && pos + ClusterBytes(fs.g) >= objsize && (pos + ClusterBytes(fs.g)) % SS == 0
      ensures ok ==> Stretched(fs.g, was, chain, pos + ClusterBytes(fs.g))
      ensures !ok ==> AtEnd(fs.g, chain, pos + ClusterBytes(fs.g))
                      && |chain| == Max(was, ClustersFor(fs.g, pos + ClusterBytes(fs.g)))
    {
      if !canWrite { AllSectors(fs.g, chain, objsize, pos + ClusterBytes(fs.g)); }
      NextStart(fs.g, chain, pos, clust);
      var c := StepCluster(pos, clust, o);
      ok := c != 0;
      if ok {
        clust := c;
      } else {
        LastEnd(fs.g, chain, pos, clust, objsize);
        EndNeeds(fs.g, chain, pos + ClusterBytes(fs.g));
        ArriveInside(fs.g, chain, pos, clust, ClusterBytes(fs.g));
      }
    }

    /** The sector at offset `ofs` of the cluster at `pos`, unless that is on a sector boundary. */
    method SeekSector(pos: nat, ofs: nat) returns (nsect: nat)
      requires Core() && AtCluster(fs.g, chain, pos, clust) && 0 < ofs <= ClusterBytes(fs.g)
      ensures Arrived(fs.g, chain, pos + ofs, clust)
      ensures (pos + ofs) % SS != 0 ==>
        HasSector(fs.g, chain, (pos + ofs) / SS) && nsect == SectorOf(fs.g, chain, (pos + ofs) / SS)
    {
      CoreDistinct(fs.g, fs.Disc(), fs.Fat(), fs.chains, chain, H(), fs.winsect, dirSect);
      ArriveInside(fs.g, chain, pos, clust, ofs);
      nsect := 0;
      if ofs % SS != 0 {
        PositionedSector(fs.g, |fs.disk|, chain, pos + ofs, clust);
        nsect := Clst2Sect(fs.g, clust);
        if nsect == 0 { assert false; }
        nsect := nsect + ofs / SS;
      }
    }

    /** Moves the pointer to `p`, extending the file if that is past its end, and loads the sector there. */
    method FinishSeek(p: Word, nsect: nat, ghost o: Origin)
      requires Core() && Isolated(o) && (p == 0 || Arrived(fs.g, chain, p, clust))
      requires p % SS != 0 ==> HasSector(fs.g, chain, p / SS) && nsect == SectorOf(fs.g, chain, p / SS)
      modifies this`fptr, this`objsize, this`sect, this`dirty, this`modified, buf, fs`disk
      ensures Valid() && Isolated(o) && fptr == p && objsize == Max(p, old(objsize))
      ensures Data()[..old(objsize)] == old(Data())
      ensures modified == (old(modified) || p > old(objsize)) && fs.Fat() == old(fs.Fat())
    {
      MoveTo(p);
      if fptr % SS != 0 && nsect != sect {
        FetchFor(nsect, o);
      }
    }

    method MoveTo(p: Word)
      requires Core() && (p == 0 || Arrived(fs.g, chain, p, clust))
      modifies this`fptr, this`objsize, this`modified
      ensures Core() && fptr == p && objsize == Max(p, old(objsize)) && Seen() == old(Seen())
      ensures Data()[..old(objsize)] == old(Data())
      ensures modified == (old(modified) || p > old(objsize))
    {
      LongerContent(fs.g, Seen(), chain, objsize, Max(p, objsize));
      fptr := p;
      if fptr > objsize {
        objsize := fptr;
        modified := true;
      }
    }

    method FetchFor(s: nat, ghost o: Origin)
      requires Core() && Isolated(o) && HasSector(fs.g, chain, fptr / SS) && s == SectorOf(fs.g, chain, fptr / SS)
      modifies this`sect, this`dirty, buf, fs`disk
      ensures Core() && Isolated(o) && Data() == old(Data()) && sect == s && fs.Fat() == old(fs.Fat())
    {
      Fetch(s, fptr / SS, Track(Seen(), fs.Fat(), o.before, fs.winsect, o.settled));
    }

    /** Moves the read/write pointer to `ofs`. Without write access the pointer stops at the end of the file;
        with it the file is extended, as far as free clusters go. No byte there was changes. */
    method Lseek(ofs: Word)
      requires Valid()
      modifies this`chain, this`sclust, this`clust, this`fptr, this`objsize, this`sect, this`dirty, this`modified, buf
      modifies fs`disk, fs`wflag, fs`winsect, fs.win, fs`freeClst, fs`lastClst, fs`fsiFlag, fs`chains
      ensures Valid() && Isolated(old(Start()))
      ensures canWrite ==> fptr == ofs || (fptr < ofs && NoFree(fs.Fat()) && AtEnd(fs.g, chain, fptr))
      ensures !canWrite ==> fptr == if ofs < old(objsize) then ofs else old(objsize)
      ensures fptr < ofs ==> fptr >= old(objsize)
      ensures objsize == Max(fptr, old(objsize)) && Data()[..old(objsize)] == old(Data())
      ensures modified == (old(modified) || fptr > old(objsize))
      ensures |chain| == Max(old(|chain|), ClustersFor(fs.g, fptr))
    {
      OriginIsolated();
      ghost var o := Start();
      var target := ofs;
      if ofs > objsize && !canWrite { target := objsize; }
      var p, nsect := SeekTo(target, o);
      FinishSeek(p, nsect, o);
    }

    /** The walk along the chain to `target`. */
    method SeekTo(target: Word, ghost o: Origin) returns (p: nat, nsect: nat)
      requires Valid() && Isolated(o) && (canWrite || target <= objsize)
      modifies this`chain, this`sclust, this`clust, fs`disk, fs`wflag, fs`winsect, fs.win
      modifies fs`freeClst, fs`lastClst, fs`fsiFlag, fs`chains
      ensures Core() && Isolated(o) && Data() == old(Data())
      ensures p <= target && (p < target ==> NoFree(fs.Fat()) && p >= objsize)
      ensures p == 0 || Arrived(fs.g, chain, p, clust)
      ensures p % SS != 0 ==> HasSector(fs.g, chain, p / SS) && nsect == SectorOf(fs.g, chain, p / SS)
      ensures |chain| == Max(old(|chain|), ClustersFor(fs.g, p)) && (p < target ==> AtEnd(fs.g, chain, p))
    {
      p, nsect := 0, 0;
      if target > 0 {
        var pos, c := SeekStart(target, o);
        if c != 0 { p, nsect := SeekLoop(target, pos, old(|chain|), o); }
      }
    }

    // ---------------------------------------------------------------- f_truncate

    /** Frees the clusters past the one of the byte before the pointer. */
    method DropTail() returns (res: FResult)
      requires Valid() && fptr < objsize
      modifies this`sclust, fs`disk, fs`wflag, fs`winsect, fs.win, fs`freeClst, fs`fsiFlag
      ensures fs.Valid() && SameBeside(fs.g, fs.Disc(), old(fs.Disc())) && res == FrOk
      ensures InFat(fs.g, fs.winsect) || fs.winsect == old(fs.winsect)
      ensures sclust == if fptr == 0 then 0 else old(sclust)
      ensures Trimmed(old(fs.Fat()), fs.Fat(), chain, ClustersFor(fs.g, fptr))
    {
      HasCurrent(fs.g, chain, fptr, objsize);
      CoreDistinct(fs.g, fs.Disc(), fs.Fat(), fs.chains, chain, H(), fs.winsect, dirSect);
      TrimCursor(fs.g, chain, fptr, clust, sect, objsize);
      if fptr == 0 {
        res := RemoveFrom(sclust, 0, 0);
        sclust := 0;
      } else {
        ghost var i := ClustersFor(fs.g, fptr);
        LinkOf(fs.Fat(), chain, i - 1, clust);
        var ncl := fs.GetFat(clust);
        if ncl == 1 { assert false; }
        res := FrOk;
        if ncl < fs.g.nFatent { res := RemoveFrom(ncl, clust, i); }
      }
    }

    /** `remove_chain` from position `i` of the chain. */
    method RemoveFrom(c: nat, p: nat, ghost i: nat) returns (res: FResult)
      requires fs.Valid() && WellFormed(fs.Fat(), fs.chains) && sclust in fs.chains && chain == fs.chains[sclust]
      requires i < |chain| && c == chain[i] && p == Predecessor(chain, i)
      modifies fs`disk, fs`wflag, fs`winsect, fs.win, fs`freeClst, fs`fsiFlag
      ensures fs.Valid() && SameBeside(fs.g, fs.Disc(), old(fs.Disc())) && res == FrOk
      ensures InFat(fs.g, fs.winsect) || fs.winsect == old(fs.winsect)
      ensures IsCut(old(fs.Fat()), fs.Fat(), chain, i)
    {
      ghost var F := fs.Fat();
      EocEndsChain(fs.g, |fs.disk|);
      assert IsChain(F, chain);
      LinkOf(F, chain, i, c);
      if i > 0 { LinkOf(F, chain, i - 1, p); }
      res := fs.RemoveChain(c, p);
      RemovedIsCut(F, fs.chains, sclust, i, Eoc(fs.g), c, p, fs.Fat(), res == FrOk);
    }

    /** Cuts the file off at the pointer and frees the clusters past it. */
    method Truncate() returns (res: FResult)
      requires Valid()
      modifies this`chain, this`sclust, this`objsize, this`dirty, this`modified
      modifies fs`disk, fs`wflag, fs`winsect, fs.win, fs`freeClst, fs`fsiFlag, fs`chains
      ensures Valid() && res == if canWrite then FrOk else FrDenied
      ensures Data() == if canWrite then old(Data())[..fptr] else old(Data())
      ensures OnlyChain(fs.g, old(fs.Disc()), fs.Disc(), old(chain)) && sect == old(sect)
      ensures WindowFrom(fs.g, old(fs.winsect), fs.winsect) && sclust == (if chain == [] then 0 else old(sclust))
      ensures canWrite && fptr < old(objsize) ==>
        chain == old(chain)[..ClustersFor(fs.g, fptr)] && fs.chains == Shortened(old(fs.chains), old(sclust), chain)
        && modified
      ensures !canWrite || fptr == old(objsize) ==>
        chain == old(chain) && fs.chains == old(fs.chains) && fs.Fat() == old(fs.Fat()) && modified == old(modified)
    {
      if !canWrite { return FrDenied; }
      res := FrOk;
      if fptr < objsize {
        ghost var b := Before(fs.Disc(), fs.Fat(), chain, H(), fs.winsect, sclust);
        res := DropTail();
        objsize := fptr;
        modified := true;
        FlushCut(b);
      }
    }

    /** Writes the buffer back after the chain was cut under it. */
    method FlushCut(ghost b: Before)
      requires fs.Valid() && buf.Length == 512 && buf != fs.win && b.chain == chain
      requires FileOk(fs.g, b.disc, b.table, fs.chains, chain, b.h, b.w, dirSect) && b.h.fptr < b.h.objsize
      requires SameBeside(fs.g, fs.Disc(), b.disc) && (InFat(fs.g, fs.winsect) || fs.winsect == b.w)
      requires Trimmed(b.table, fs.Fat(), chain, ClustersFor(fs.g, fptr))
      requires H() == CutOff(b.h).(dirty := b.h.dirty)
      modifies this`chain, this`dirty, fs`disk, fs`chains
      ensures Valid() && chain == old(chain)[..ClustersFor(fs.g, fptr)]
      ensures Data() == Content(fs.g, View(b.disc, b.h), old(chain), b.h.objsize)[..fptr]
      ensures OnlyChain(fs.g, b.disc, fs.Disc(), old(chain))
      ensures fs.chains == Shortened(old(fs.chains), b.h.sclust, chain)
    {
      ghost var e := fs.Disc();
      CutAll(fs.g, b.disc, e, b.table, fs.Fat(), fs.chains, chain, b.h, b.w, fs.winsect, dirSect);
      FlushRaw();
      chain := chain[..ClustersFor(fs.g, fptr)];
      fs.chains := Shortened(fs.chains, b.h.sclust, chain);
    }

    /** Writes the dirty buffer out, whether or not its sector still belongs to the file. */
    method FlushRaw()
      requires fs.Valid() && buf.Length == 512 && buf != fs.win
      requires dirty ==> fs.g.database <= sect < |fs.disk| && fs.winsect != sect
      modifies this`dirty, fs`disk
      ensures fs.Valid() && H() == old(H()).(dirty := false) && fs.Fat() == old(fs.Fat())
      ensures fs.Disc() == View(old(fs.Disc()), old(H()))
    {
      if dirty {
        OneSector(fs.Disc(), sect, buf[..]);
        fs.DiskWrite(sect, 1, buf[..]);
        dirty := false;
      }
    }

    // ---------------------------------------------------------------- f_sync

    /** Writes out everything a changed file has buffered and its directory entry: afterwards the medium alone
        holds the file. */
    method Sync(tm: Word)
      requires Valid() && dirOfs + 32 <= SS
      modifies this`dirty, this`modified, fs`disk, fs`wflag, fs`winsect, fs.win, fs`fsiFlag
      ensures Valid() && !modified && Data() == old(Data()) && fs.Fat() == old(fs.Fat())
      ensures OnlySynced(fs.g, old(fs.Disc()), fs.Disc(), chain, dirSect)
      ensures fs.winsect == old(fs.winsect) || fs.winsect == dirSect || fs.winsect < fs.g.fatbase
      ensures old(modified) ==>
        && fs.disk == fs.Disc() == Seen()
        && Records(fs.g, old(fs.Disc())[dirSect], fs.disk, dirSect, dirOfs, sclust, objsize, tm)
    {
      SyncedNothing(fs.g, fs.Disc(), chain, dirSect);
      if modified {
        WriteOut(tm);
        modified := false;
      }
    }

    method WriteOut(tm: Word)
      requires Valid() && dirOfs + 32 <= SS
      modifies this`dirty, fs`disk, fs`wflag, fs`winsect, fs.win, fs`fsiFlag
      ensures Valid() && Data() == old(Data()) && fs.Fat() == old(fs.Fat())
      ensures OnlySynced(fs.g, old(fs.Disc()), fs.Disc(), chain, dirSect)
      ensures fs.winsect == dirSect || fs.winsect < fs.g.fatbase
      ensures fs.disk == fs.Disc() == Seen()
      ensures Records(fs.g, old(fs.Disc())[dirSect], fs.disk, dirSect, dirOfs, sclust, objsize, tm)
    {
      ghost var d := fs.Disc();
      Flush(Track(Seen(), fs.Fat(), d, fs.winsect, Current(fs.g, chain, sect)));
      WriteEntry(tm, d);
      FlushVolume(d, tm);
    }

    /** Puts the start and size of the file into its directory entry. */
    method WriteEntry(tm: Word, ghost d: Disc)
      requires Valid() && !dirty && dirOfs + 32 <= SS && OnlyChain(fs.g, d, fs.Disc(), chain)
      modifies fs`disk, fs`wflag, fs`winsect, fs.win
      ensures Valid() && Data() == old(Data()) && fs.Fat() == old(fs.Fat())
      ensures OnlySynced(fs.g, d, fs.Disc(), chain, dirSect)
      ensures Records(fs.g, d[dirSect], fs.Disc(), dirSect, dirOfs, sclust, objsize, tm) && fs.winsect == dirSect
    {
      ShowDirectory();
      StartStored(fs.g, fs.Disc(), fs.Fat(), fs.chains, chain, H(), fs.winsect, dirSect);
      var entry := NewEntry(fs.win[..][dirOfs..dirOfs + 32], tm);
      EntryStored(fs.g, fs.Disc(), fs.Fat(), fs.chains, chain, H(), fs.winsect, dirSect, dirOfs, entry, d, tm);
      fs.PatchWindow(dirOfs, entry);
    }

    method ShowDirectory()
      requires Valid()
      modifies fs`disk, fs`wflag, fs`winsect, fs.win
      ensures Valid() && fs.winsect == dirSect && fs.Disc() == old(fs.Disc())
    {
      fs.MoveWindow(dirSect);
    }

    method NewEntry(e: seq<Byte>, tm: Word) returns (entry: seq<Byte>)
      requires |e| == 32 && sclust < MaxEntries(fs.g.fsType)
      ensures EntryIs(e, entry, fs.g.fsType, sclust, objsize, tm)
    {
      UpdatedIs(e, fs.g.fsType, sclust, objsize, tm);
      entry := UpdatedEntry(e, fs.g.fsType, sclust, objsize, tm);
    }

    method FlushVolume(ghost d: Disc, ghost tm: Word)
      requires Valid() && !dirty && OnlySynced(fs.g, d, fs.Disc(), chain, dirSect) && dirOfs + 32 <= SS
      requires Records(fs.g, d[dirSect], fs.Disc(), dirSect, dirOfs, sclust, objsize, tm) && fs.winsect == dirSect
      modifies fs`disk, fs`wflag, fs`winsect, fs.win, fs`fsiFlag
      ensures Valid() && Data() == old(Data()) && fs.Fat() == old(fs.Fat())
      ensures OnlySynced(fs.g, d, fs.Disc(), chain, dirSect)
      ensures fs.winsect == dirSect || fs.winsect < fs.g.fatbase
      ensures fs.disk == fs.Disc() == Seen() && Records(fs.g, d[dirSect], fs.disk, dirSect, dirOfs, sclust, objsize, tm)
    {
      ghost var e := fs.Disc();
      ghost var info := InfoSector(fs.freeClst, fs.lastClst);
      InfoFile(fs.g, e, fs.Fat(), fs.chains, chain, H(), fs.winsect, dirSect, info, d);
      fs.SyncFs();
    }
  }

  /** Position of the cluster before a cluster boundary of the file. */
  ghost function LinkBefore(g: Geometry, fptr: nat): (j: int)
    requires ClusterSize(g.csize)
  {
    if fptr == 0 then -1 else Quot((fptr - 1) / SS, g.csize)
  }

  lemma BoundaryLink(g: Geometry, chain: seq<nat>, fptr: nat, clust: nat, sect: nat)
    requires ClusterSize(g.csize) && CursorOk(g, chain, fptr, clust, sect)
    requires fptr % SS == 0 && Rem(fptr / SS, g.csize) == 0 && (fptr == 0 ==> chain == [])
    ensures AtLink(chain, LinkBefore(g, fptr), if fptr == 0 then 0 else clust)
    ensures Quot(fptr / SS, g.csize) == LinkBefore(g, fptr) + 1
  {
    if fptr > 0 { Boundary(g, chain, fptr, clust, sect); }
  }

  /** `p` is the cluster at position `j` of the chain, or 0 before the first cluster of an empty one. */
  ghost predicate AtLink(chain: seq<nat>, j: int, p: nat) {
    -1 <= j < |chain| && (if j < 0 then p == 0 && chain == [] else p == chain[j])
  }

  /** `create_chain` at position `j`: the next cluster, a free cluster now linked there, or 0. */
  ghost predicate Allocated(g: Geometry, d: Disc, e: Disc, F: seq<nat>, G: seq<nat>, chain: seq<nat>, p: nat, j: int,
                            r: nat) {
    && SameBeside(g, e, d)
    && -1 <= j < |chain|
    && (if j < |chain| - 1 then r == chain[j + 1] != 0 && G == F && e == d
        else if r == 0 then G == F && e == d && NoFree(F)
        else IsCluster(F, r) && F[r] == 0 && (p == 0 || IsCluster(F, p)) && G == Linked(F, p, r, Eoc(g)))
  }

  lemma LinkOf(F: seq<nat>, chain: seq<nat>, j: int, p: nat)
    requires (chain == [] || IsChain(F, chain)) && AtLink(chain, j, p)
    ensures p != 0 ==> IsCluster(F, p)
    ensures p == 0 <==> j < 0
    ensures j >= 0 ==> if j < |chain| - 1 then F[p] == chain[j + 1] && IsCluster(F, F[p]) else F[p] >= |F|
  {
    if j >= 0 {
      assert LinkAt(F, chain, j);
      if j < |chain| - 1 { assert LinkAt(F, chain, j + 1); }
    }
  }

  /** A file that has a chain has its start. */
  lemma StartedAlready(F: seq<nat>, chain: seq<nat>, h: Handle, j: int, r: nat)
    requires chain != [] ==> IsChain(F, chain) && chain[0] == h.sclust
    requires -1 <= j < |chain|
    ensures j < |chain| - 1 ==> Started(h, r) == h
    ensures chain != [] ==> chain[|chain| - 1] != 0
  {
    if chain != [] {
      assert LinkAt(F, chain, 0);
      assert LinkAt(F, chain, |chain| - 1);
    }
  }

  datatype Before = Before(disc: Disc, table: seq<nat>, chain: seq<nat>, h: Handle, w: nat, sclust: nat)

  lemma SameStart(d: Disc, h: Handle, r: nat)
    ensures View(d, Started(h, r)) == View(d, h)
  {}

  lemma OneSector(d: Disc, s: nat, x: Sector)
    requires s < |d|
    ensures Written(d, s, 1, x) == d[s := x]
  {
    assert x[0..512] == x;
  }

  lemma CurrentNotZero(g: Geometry, chain: seq<nat>, fptr: nat, clust: nat, sect: nat)
    requires ClusterSize(g.csize) && CursorOk(g, chain, fptr, clust, sect) && fptr > 0 && Distinct(g, chain)
    ensures clust != 0
  {}

  lemma SpliceMore(s: seq<Byte>, at: nat, x: seq<Byte>, m: nat, n: nat)
    requires at <= |s| && m + n <= |x|
    ensures Splice(Splice(s, at, x[..m]), at + m, x[m..][..n]) == Splice(s, at, x[..m + n])
  {
    SpliceSplice(s, at, x[..m], x[m..][..n]);
    assert x[..m] + x[m..][..n] == x[..m + n];
  }

  lemma SlicesJoin(s: seq<Byte>, p: nat, m: nat, q: nat)
    requires p <= m <= q <= |s|
    ensures s[p..m] + s[m..q] == s[p..q]
  {}

  /** The window is where it was or in the FAT. */
  predicate WindowFrom(g: Geometry, was: nat, w: nat) {
    w == was || InFat(g, w)
  }

  /** The buffer holds nothing, or a sector that still belongs to the file. */
  ghost predicate Current(g: Geometry, chain: seq<nat>, sect: nat) {
    sect == 0 || OnChain(g, chain, sect)
  }

  /** It does if it did. */
  ghost predicate SectorFrom(g: Geometry, was: bool, chain: seq<nat>, s: nat) {
    was ==> Current(g, chain, s)
  }

  lemma SectorStays(g: Geometry, was: bool, chain: seq<nat>, longer: seq<nat>, s: nat)
    requires SectorFrom(g, was, chain, s) && forall c :: c in chain ==> c in longer
    ensures SectorFrom(g, was, longer, s)
  {}

  /** Only the sectors and the chain of the file that started at `sclust` differ from `o`; a file that had no
      chain started one of its own. */
  ghost predicate Since(o: Origin, g: Geometry, d: Disc, C: Chains, w: nat, sclust: nat, chain: seq<nat>) {
    && OnlyChain(g, o.before, d, chain) && C == WithChain(o.chains, sclust, chain)
    && WindowFrom(g, o.w, w)
    && (sclust == o.sclust || (o.sclust == 0 && sclust !in o.chains))
  }

  lemma NewOrigin(g: Geometry, d: Disc, e: Disc, o: Origin, F: seq<nat>, C: Chains, h: Handle, chain: seq<nat>, r: nat,
                  was: nat, w: nat)
    requires SameBeside(g, e, d) && Since(o, g, d, C, was, h.sclust, chain) && WindowFrom(g, was, w)
    requires WellFormed(F, C) && IsCluster(F, r) && F[r] == 0
    ensures Since(o, g, e, WithChain(C, Started(h, r).sclust, chain + [r]), w, Started(h, r).sclust, chain + [r])
  {
    var start := Started(h, r).sclust;
    OnlyLonger(g, o.before, d, chain, chain + [r]);
    OnlyFat(g, d, e, chain + [r]);
    OnlyTrans(g, o.before, d, e, chain + [r]);
    Rechain(o.chains, C, h.sclust, chain, start, chain + [r]);
    if r in C { assert IsChain(F, C[r]) && C[r][0] in C[r]; FreeNotOwned(F, C, r, r); }
  }
}
