/** A mounted FAT volume (system/ff.c): the one-sector write-back window, the table entries behind it and
    the allocation of clusters. The medium is `disk`; what a reader of the volume sees is `Disc()`. */
module FatVolume {
  import opened Bits
  import opened FatDisk
  import opened FatTable
  import opened FatChains

  datatype FResult = FrOk | FrIntErr | FrDenied | FrNoFile

  /** What the window adds to the medium. */
  function Overlay(g: Geometry, disk: Disc, dirty: bool, s: nat, x: Sector): (d: Disc)
    requires GeometryOk(g, |disk|) && s < |disk|
    ensures |d| == |disk| && (dirty ==> d[s] == x)
  {
    if dirty then Store(g, disk, s, x) else disk
  }

  /** Sector `s` is one the window may hold: any but those of the second FAT. */
  predicate Windowed(g: Geometry, s: nat) {
    g.nFats == 2 ==> !(g.fatbase + g.fsize <= s < g.fatbase + 2 * g.fsize)
  }

  ghost predicate WindowOk(g: Geometry, disk: Disc, dirty: bool, s: nat, x: Sector) {
    && GeometryOk(g, |disk|) && s < |disk|
    && Mirrored(g, disk)
    && Windowed(g, s)
    && (!dirty ==> x == disk[s])
  }

  lemma OverlayTwice(g: Geometry, disk: Disc, dirty: bool, s: nat, x: Sector, y: Sector)
    requires WindowOk(g, disk, dirty, s, x)
    ensures Overlay(g, disk, true, s, y) == Store(g, Overlay(g, disk, dirty, s, x), s, y)
    ensures Overlay(g, disk, dirty, s, x)[s] == x
    ensures Mirrored(g, Overlay(g, disk, dirty, s, x))
  {
    StoreTwice(g, disk, s, x, y);
    StoreMirrored(g, disk, s, x);
  }

  /** The free-cluster count, where it is valid, is exact. */
  predicate CountOk(g: Geometry, F: seq<nat>, count: Word) {
    count <= g.nFatent - 2 ==> count == Free(F)
  }

  /** The end mark that writing 0xFFFFFFFF to an entry leaves. */
  function Eoc(g: Geometry): (v: nat) {
    Width(g.fsType) - 1
  }

  /** The stored end mark is no link, and a link is stored in full. */
  lemma EocEndsChain(g: Geometry, n: nat)
    requires GeometryOk(g, n)
    ensures Eoc(g) >= g.nFatent && 0xFFFF_FFFF % Width(g.fsType) == Eoc(g)
    ensures forall c :: 0 <= c < g.nFatent ==> c % Width(g.fsType) == c
  {}

  /** No entry from `scl` on, going round, is free before `r`. */
  ghost predicate Nearest(F: seq<nat>, scl: nat, r: nat) {
    && IsCluster(F, r) && F[r] == 0
    && forall c :: IsCluster(F, c) && (if scl < r then scl < c < r else c < r || scl < c) ==> F[c] != 0
  }

  /** `r` is the free cluster nearest in the order of the search: for a new chain going round from the cluster
      allocated last; behind cluster `p` the very next one, or else going round from the one allocated last. */
  ghost predicate PlacedFor(F: seq<nat>, p: nat, last: nat, r: nat) {
    var next := if p + 1 >= |F| then 2 else p + 1;
    if p == 0 then Nearest(F, if 1 <= last < |F| then last else 1, r)
    else if next < |F| && F[next] == 0 then r == next
    else Nearest(F, if 2 <= last < |F| then last else p, r)
  }

  ghost predicate NoFree(F: seq<nat>) {
    forall c :: IsCluster(F, c) ==> F[c] != 0
  }

  ghost predicate HasReserved(F: seq<nat>) {
    exists c :: IsCluster(F, c) && F[c] == 1
  }

  /** No cluster below `k` holds the reserved value. */
  ghost predicate NoneReserved(F: seq<nat>, k: nat) {
    forall c :: 2 <= c < k && c < |F| ==> F[c] != 1
  }

  lemma NotReserved(F: seq<nat>)
    requires NoneReserved(F, |F|)
    ensures !HasReserved(F)
  {}

  /** The first data cluster, where a FAT32 root directory usually starts. */
  const ROOT: nat := 2

  class Volume {
    const g: Geometry
    var disk: Disc
    const win: array<Byte>
    var winsect: nat
    var wflag: bool
    var freeClst: Word
    var lastClst: Word
    var fsiFlag: Byte
    ghost var chains: Chains

    /** The state mounting leaves, with `x` in the window as sector `sect` of the medium. */
    constructor (geo: Geometry, medium: Disc, sect: nat, x: Sector, free: Word, last: Word, flag: Byte)
      ensures fresh(win) && g == geo && disk == medium && winsect == sect && !wflag && win[..] == x
      ensures Core() <==> WindowOk(geo, medium, false, sect, x)
      ensures Core() ==> Disc() == medium
      ensures freeClst == free && lastClst == last && fsiFlag == flag && chains == map[]
    {
      g, disk, winsect, wflag := geo, medium, sect, false;
      freeClst, lastClst, fsiFlag := free, last, flag;
      chains := map[];
      win := new Byte[512](i requires 0 <= i < 512 => x[i]);
      new;
      assert win[..] == x;
    }

    /** The window is in order. */
    ghost predicate Core()
      reads this, win
    {
      win.Length == 512 && WindowOk(g, disk, wflag, winsect, win[..])
    }

    /** The disc with the window laid over it. */
    ghost function Disc(): (d: Disc)
      requires Core()
      reads this, win
      ensures |d| == |disk|
    {
      Overlay(g, disk, wflag, winsect, win[..])
    }

    ghost function Fat(): (F: seq<nat>)
      requires Core()
      reads this, win
      ensures |F| == g.nFatent
    {
      Table(g, Disc())
    }

    /** The window is in order and the count of free clusters, where there is one, is exact. */
    ghost predicate Counted()
      reads this, win
    {
      Core() && CountOk(g, Fat(), freeClst)
    }

    /** The volume has no FSInfo sector, or that sector is in front of the FAT. Mounting does not check this:
        with one reserved sector the two coincide. */
    ghost predicate InfoApart()
      reads this
    {
      fsiFlag < 0x80 ==> g.volbase + 1 < g.fatbase
    }

    ghost predicate Valid()
      reads this, win
    {
      Counted() && InfoApart()
    }

    // ---------------------------------------------------------------- the window

    method SyncWindow()
      requires Core()
      modifies this`disk, this`wflag
      ensures Core() && !wflag
      ensures disk == Disc() == old(Disc())
    {
      if wflag {
        OverlayTwice(g, disk, wflag, winsect, win[..], win[..]);
        disk := disk[winsect := win[..]];
        wflag := false;
        if InFat(g, winsect) {
          if g.nFats == 2 { disk := disk[winsect + g.fsize := win[..]]; }
        }
      }
    }

    method MoveWindow(sect: nat)
      requires Core() && sect < |disk| && Windowed(g, sect)
      modifies this`disk, this`wflag, this`winsect, win
      ensures Core() && winsect == sect
      ensures Disc() == old(Disc()) && win[..] == Disc()[sect]
      ensures old(disk) == old(Disc()) ==> disk == Disc()
    {
      if sect != winsect {
        SyncWindow();
        forall i | 0 <= i < 512 { win[i] := disk[sect][i]; }
        winsect := sect;
        assert win[..] == disk[sect];
      } else {
        OverlayTwice(g, disk, wflag, winsect, win[..], win[..]);
      }
    }

    /** After the window's bytes changed and it was marked dirty. */
    lemma Dirtied(was: Disc, dirty: bool, x: Sector)
      requires win.Length == 512 && wflag
      requires WindowOk(g, disk, dirty, winsect, x)
      requires was == Overlay(g, disk, dirty, winsect, x)
      ensures Core() && Disc() == Store(g, was, winsect, win[..])
    {
      OverlayTwice(g, disk, dirty, winsect, x, win[..]);
    }

    // ---------------------------------------------------------------- table bytes

    method MoveToByte(i: nat)
      requires Core() && i < SS * g.fsize
      modifies this`disk, this`wflag, this`winsect, win
      ensures Core() && winsect == g.fatbase + i / SS
      ensures Disc() == old(Disc())
      ensures win[..] == Disc()[winsect] && win[i % SS] == FatByte(g, Disc(), i)
    {
      MoveWindow(g.fatbase + i / SS);
      assert win[..][i % SS] == win[i % SS];
    }

    method PokeByte(i: nat, b: Byte)
      requires Core() && i < SS * g.fsize && winsect == g.fatbase + i / SS
      modifies this`wflag, win
      ensures Core() && Disc() == PutBytes(g, old(Disc()), i, [b])
    {
      ghost var was, dirty, x := Disc(), wflag, win[..];
      OverlayTwice(g, disk, dirty, winsect, x, x);
      win[i % SS] := b;
      wflag := true;
      assert win[..] == Patch(x, i % SS, [b]);
      Dirtied(was, dirty, x);
    }

    method PokeWord(i: nat, v: Word)
      requires Core() && i + 2 <= SS * g.fsize && i % SS + 2 <= SS && winsect == g.fatbase + i / SS
      modifies this`wflag, win
      ensures Core() && Disc() == PutBytes(g, old(Disc()), i, [v % 256, v / 256 % 256])
    {
      ghost var was, dirty, x := Disc(), wflag, win[..];
      OverlayTwice(g, disk, dirty, winsect, x, x);
      win[i % SS] := v % 256;
      win[i % SS + 1] := v / 256 % 256;
      wflag := true;
      assert win[..] == Patch(x, i % SS, [v % 256, v / 256 % 256]);
      Dirtied(was, dirty, x);
    }

    method PokeDword(i: nat, v: Word)
      requires Core() && i + 4 <= SS * g.fsize && i % SS + 4 <= SS && winsect == g.fatbase + i / SS
      modifies this`wflag, win
      ensures Core() && Disc() == PutBytes(g, old(Disc()), i, Bytes32(v))
    {
      ghost var was, dirty, x := Disc(), wflag, win[..];
      OverlayTwice(g, disk, dirty, winsect, x, x);
      win[i % SS] := v % 256;
      win[i % SS + 1] := v / 256 % 256;
      win[i % SS + 2] := v / 0x1_0000 % 256;
      win[i % SS + 3] := v / 0x100_0000;
      wflag := true;
      assert win[..] == Patch(x, i % SS, Bytes32(v));
      Dirtied(was, dirty, x);
    }

    // ---------------------------------------------------------------- get_fat

    method GetFat12(clst: nat) returns (val: nat)
      requires Core() && g.fsType == Fat12 && clst < g.nFatent
      modifies this`disk, this`wflag, this`winsect, win
      ensures Core() && Disc() == old(Disc()) && InFat(g, winsect)
      ensures val == Entry(g, Disc(), clst)
    {
      EntryInside(g, |disk|, clst);
      var bc := clst + clst / 2;
      MoveToByte(bc);
      var wc := win[bc % SS];
      bc := bc + 1;
      MoveToByte(bc);
      val := Unpack12(clst % 2 == 1, wc, win[bc % SS]);
      Value12Entry(g, Disc(), clst);
    }

    /** `wc |= byte << 8`, then `wc >> 4` or `wc & 0xFFF`. */
    method Unpack12(odd: bool, lo: Byte, hi: Byte) returns (val: nat)
      ensures val == Value12(odd, lo, hi)
    {
      Reads12(lo, hi);
      var wc := Or(lo, Shl(hi, 8));
      val := if odd then Shr(wc, 4) else And(wc, 0xFFF);
    }

    method GetFat16(clst: nat) returns (val: nat)
      requires Core() && g.fsType == Fat16 && clst < g.nFatent
      modifies this`disk, this`wflag, this`winsect, win
      ensures Core() && Disc() == old(Disc()) && InFat(g, winsect)
      ensures val == Entry(g, Disc(), clst)
    {
      EntryInside(g, |disk|, clst);
      EntryFits(clst);
      MoveToByte(2 * clst);
      var k := clst * 2 % SS;
      SameSector(g, Disc(), 2 * clst, 2, 1);
      val := Word16(win[..][k], win[..][k + 1]);
    }

    method GetFat32(clst: nat) returns (val: nat)
      requires Core() && g.fsType == Fat32 && clst < g.nFatent
      modifies this`disk, this`wflag, this`winsect, win
      ensures Core() && Disc() == old(Disc()) && InFat(g, winsect)
      ensures val == Entry(g, Disc(), clst)
    {
      EntryInside(g, |disk|, clst);
      EntryFits(clst);
      MoveToByte(4 * clst);
      var raw := LoadDword(clst);
      Low28(raw);
      val := And(raw, 0x0FFF_FFFF);
    }

    method LoadDword(clst: nat) returns (v: Word)
      requires Core() && 4 * clst + 3 < SS * g.fsize && 4 * clst % SS + 4 <= SS
      requires winsect == g.fatbase + 4 * clst / SS && win[..] == Disc()[winsect]
      ensures v == Raw32(g, Disc(), clst)
    {
      var k := clst * 4 % SS;
      RawInSector(g, Disc(), clst);
      v := Word32(win[..][k], win[..][k + 1], win[..][k + 2], win[..][k + 3]);
    }

    /** The value of entry `clst`, or 1 when there is no such cluster. */
    method GetFat(clst: nat) returns (val: nat)
      requires Core()
      modifies this`disk, this`wflag, this`winsect, win
      ensures Core() && Disc() == old(Disc())
      ensures val == if IsCluster(Fat(), clst) then Fat()[clst] else 1
      ensures IsCluster(Fat(), clst) && g.fsType == Fat12 ==>
        val == Nibble(g, Disc(), 3 * clst) + 16 * Nibble(g, Disc(), 3 * clst + 1)
               + 256 * Nibble(g, Disc(), 3 * clst + 2)
      ensures IsCluster(Fat(), clst) && g.fsType == Fat16 ==>
        val == FatByte(g, Disc(), 2 * clst) + 256 * FatByte(g, Disc(), 2 * clst + 1)
      ensures IsCluster(Fat(), clst) && g.fsType == Fat32 ==>
        val == FatByte(g, Disc(), 4 * clst) + 256 * FatByte(g, Disc(), 4 * clst + 1)
               + 0x1_0000 * FatByte(g, Disc(), 4 * clst + 2) + 0x100_0000 * (FatByte(g, Disc(), 4 * clst + 3) % 16)
      ensures InFat(g, winsect) || winsect == old(winsect)
    {
      if clst < 2 || clst >= g.nFatent {
        return 1;
      }
      match g.fsType {
        case Fat12 => val := GetFat12(clst);
        case Fat16 => val := GetFat16(clst);
        case Fat32 => val := GetFat32(clst);
      }
      EntryDigits(g, Disc(), clst);
    }

    // ---------------------------------------------------------------- put_fat

    method PutFirst12(clst: nat, val: Word)
      requires Core() && Offset12(clst) < SS * g.fsize
      modifies this`disk, this`wflag, this`winsect, win
      ensures Core() && winsect == g.fatbase + Offset12(clst) / SS
      ensures var d := old(Disc());
        Disc() == PutBytes(g, d, Offset12(clst), [First12(clst % 2 == 1, FatByte(g, d, Offset12(clst)), val)])
    {
      var bc := clst + clst / 2;
      MoveToByte(bc);
      var p := win[bc % SS];
      MaskFirst12(p, val);
      PokeByte(bc, if clst % 2 == 1 then Or(And(p, 0x0F), val % 256 * 16 % 256) else val % 256);
    }

    method PutSecond12(clst: nat, val: Word)
      requires Core() && Offset12(clst) + 1 < SS * g.fsize
      modifies this`disk, this`wflag, this`winsect, win
      ensures Core() && winsect == g.fatbase + (Offset12(clst) + 1) / SS
      ensures var d := old(Disc());
        var i := Offset12(clst) + 1;
        Disc() == PutBytes(g, d, i, [Second12(clst % 2 == 1, FatByte(g, d, i), val)])
    {
      var bc := clst + clst / 2 + 1;
      MoveToByte(bc);
      var p := win[bc % SS];
      MaskSecond12(p, val);
      PokeByte(bc, if clst % 2 == 1 then val / 16 % 256 else Or(And(p, 0xF0), And(val / 256 % 256, 0x0F)));
    }

    method PutFat12(clst: nat, val: Word)
      requires Core() && g.fsType == Fat12 && clst < g.nFatent
      modifies this`disk, this`wflag, this`winsect, win
      ensures Core() && InFat(g, winsect)
      ensures Fat() == old(Fat())[clst := val % 0x1000] && SameBeside(g, Disc(), old(Disc()))
    {
      EntryInside(g, |disk|, clst);
      ghost var d := Disc();
      PutFirst12(clst, val);
      ghost var m := Disc();
      PutSecond12(clst, val);
      TwoPokes(g, d, m, Disc(), clst, val);
    }

    method PutFat16(clst: nat, val: Word)
      requires Core() && g.fsType == Fat16 && clst < g.nFatent
      modifies this`disk, this`wflag, this`winsect, win
      ensures Core() && InFat(g, winsect)
      ensures Fat() == old(Fat())[clst := val % 0x1_0000] && SameBeside(g, Disc(), old(Disc()))
    {
      EntryInside(g, |disk|, clst);
      EntryFits(clst);
      ghost var d := Disc();
      MoveToByte(2 * clst);
      PokeWord(2 * clst, val);
      PokedWord(g, d, clst, val);
    }

    method Rewrite32(clst: nat, val: Word)
      requires Core() && 4 * clst + 3 < SS * g.fsize && 4 * clst % SS + 4 <= SS
      modifies this`disk, this`wflag, this`winsect, win
      ensures Core() && winsect == g.fatbase + 4 * clst / SS
      ensures var d := old(Disc()); Disc() == PutBytes(g, d, 4 * clst, Bytes32(Keep4(Raw32(g, d, clst), val)))
    {
      MoveToByte(4 * clst);
      var was := LoadDword(clst);
      MaskedKeep4(was, val);
      PokeDword(4 * clst, Or(And(val, 0x0FFF_FFFF), And(was, 0xF000_0000)));
    }

    method PutFat32(clst: nat, val: Word)
      requires Core() && g.fsType == Fat32 && clst < g.nFatent
      modifies this`disk, this`wflag, this`winsect, win
      ensures Core() && InFat(g, winsect)
      ensures Fat() == old(Fat())[clst := val % 0x1000_0000] && SameBeside(g, Disc(), old(Disc()))
      ensures UpperKept(g, old(Disc()), Disc())
    {
      EntryInside(g, |disk|, clst);
      EntryFits(clst);
      ghost var d := Disc();
      Rewrite32(clst, val);
      PokedDword(g, d, clst, val);
    }

    /** Stores the low bits of `val` in entry `clst`; nothing beside the two copies of that entry changes. */
    method PutFat(clst: nat, val: Word) returns (res: FResult)
      requires Core()
      modifies this`disk, this`wflag, this`winsect, win
      ensures Core() && SameBeside(g, Disc(), old(Disc()))
      ensures res == if IsCluster(old(Fat()), clst) then FrOk else FrIntErr
      ensures Fat() == if IsCluster(old(Fat()), clst) then old(Fat())[clst := val % Width(g.fsType)] else old(Fat())
      ensures g.fsType == Fat32 ==> UpperKept(g, old(Disc()), Disc())
      ensures InFat(g, winsect) || winsect == old(winsect)
    {
      res := FrIntErr;
      if clst >= 2 && clst < g.nFatent {
        res := FrOk;
        match g.fsType {
          case Fat12 => PutFat12(clst, val);
          case Fat16 => PutFat16(clst, val);
          case Fat32 => PutFat32(clst, val);
        }
      }
    }

    // ---------------------------------------------------------------- remove_chain

    /** Frees one entry and counts it. */
    method FreeEntry(clst: nat)
      requires Core() && IsCluster(Fat(), clst) && Fat()[clst] != 0
      modifies this`disk, this`wflag, this`winsect, win, this`freeClst, this`fsiFlag
      ensures Core() && (old(Counted()) ==> Counted()) && InfoApart() == old(InfoApart())
      ensures SameBeside(g, Disc(), old(Disc()))
      ensures Fat() == old(Fat())[clst := 0]
      ensures InFat(g, winsect) || winsect == old(winsect)
      ensures Noted(old(freeClst), old(fsiFlag), freeClst, fsiFlag)
    {
      if CountOk(g, Fat(), freeClst) { CountFreed(g, Fat(), clst, freeClst); }
      var _ := PutFat(clst, 0);
      if freeClst < g.nFatent - 2 {
        freeClst := freeClst + 1;
        fsiFlag := WithBit0(fsiFlag);
      }
    }

    /** Marks the end of a chain; no cluster is used up if the entry was in use. */
    method EndChain(clst: nat)
      requires Core() && IsCluster(Fat(), clst)
      modifies this`disk, this`wflag, this`winsect, win
      ensures Core() && (old(Counted() && Fat()[clst] != 0) ==> Counted())
      ensures SameBeside(g, Disc(), old(Disc()))
      ensures Fat() == old(Fat())[clst := Eoc(g)]
      ensures InFat(g, winsect) || winsect == old(winsect)
    {
      EocEndsChain(g, |disk|);
      FreeUpdate(Fat(), clst, Eoc(g));
      var _ := PutFat(clst, 0xFFFF_FFFF);
    }

    /** `get_fat` of a cluster there is. */
    method EntryStatus(clst: nat) returns (stat: nat)
      requires Core() && IsCluster(Fat(), clst)
      modifies this`disk, this`wflag, this`winsect, win
      ensures Core() && Disc() == old(Disc()) && stat == Fat()[clst]
      ensures InFat(g, winsect) || winsect == old(winsect)
    {
      stat := GetFat(clst);
    }

    /** Frees the entries from `first` on, whatever the table holds. */
    method FreeFrom(first: nat) returns (res: FResult)
      requires Core() && IsCluster(Fat(), first)
      modifies this`disk, this`wflag, this`winsect, win, this`freeClst, this`fsiFlag
      ensures Core() && (old(Counted()) ==> Counted()) && InfoApart() == old(InfoApart())
      ensures SameBeside(g, Disc(), old(Disc()))
      ensures InFat(g, winsect) || winsect == old(winsect)
      ensures Freed(old(Fat()), first) == Outcome(Fat(), res == FrOk)
      ensures res == FrOk || res == FrIntErr
      ensures Noted(old(freeClst), old(fsiFlag), freeClst, fsiFlag)
    {
      var clst: nat := first;
      ghost var d, F, free, flag := Disc(), Fat(), freeClst, fsiFlag;
      while clst < g.nFatent
        invariant Freeing(d, F, first, clst, free, flag)
        invariant (old(Counted()) ==> Counted()) && InfoApart() == old(InfoApart())
        invariant InFat(g, winsect) || winsect == old(winsect)
        decreases (if clst < g.nFatent then 1 else 0), g.nFatent - Free(Fat())
      {
        var nxt := EntryStatus(clst);
        if nxt == 0 { return FrOk; }
        if nxt == 1 { return FrIntErr; }
        FreeThis(clst, nxt, d, F, first, free, flag);
        clst := nxt;
      }
      return FrOk;
    }

    /** Of the entries to free, starting at `first` with disc `d` and table `F`, those from `clst` on are left. */
    ghost predicate Freeing(d: Disc, F: seq<nat>, first: nat, clst: nat, free: Word, flag: Byte)
      reads this, win
    {
      && Noted(free, flag, freeClst, fsiFlag)
      && Core() && clst >= 2 && SameBeside(g, Disc(), d) && |F| == g.nFatent && IsCluster(F, first)
      && Freed(F, first) == if clst < g.nFatent then Freed(Fat(), clst) else Outcome(Fat(), true)
    }

    method FreeThis(clst: nat, ghost nxt: nat, ghost d: Disc, ghost F: seq<nat>, ghost first: nat, ghost free: Word,
                    ghost flag: Byte)
      requires Freeing(d, F, first, clst, free, flag) && clst < g.nFatent && nxt == Fat()[clst] > 1
      modifies this`disk, this`wflag, this`winsect, win, this`freeClst, this`fsiFlag
      ensures Freeing(d, F, first, nxt, free, flag) && Free(Fat()) > old(Free(Fat()))
      ensures (old(Counted()) ==> Counted()) && InfoApart() == old(InfoApart())
      ensures InFat(g, winsect) || winsect == old(winsect)
    {
      ghost var m, n, b := Disc(), freeClst, fsiFlag;
      FreeUpdate(Fat(), clst, 0);
      FreeEntry(clst);
      BesideTrans(g, d, m, Disc());
      NotedTwice(free, flag, n, b, freeClst, fsiFlag);
    }

    /** Frees a chain from `clst` on and ends the chain before it at `pclst`, if that is not 0. Stops on
        every table, even one with cycles. The count stays exact unless `pclst` was free, which would use a
        cluster up uncounted. */
    method RemoveChain(clst: nat, pclst: nat) returns (res: FResult)
      requires Core()
      modifies this`disk, this`wflag, this`winsect, win, this`freeClst, this`fsiFlag
      ensures Core() && InfoApart() == old(InfoApart())
      ensures old(Counted()) && (IsCluster(old(Fat()), pclst) ==> old(Fat())[pclst] != 0) ==> Counted()
      ensures SameBeside(g, Disc(), old(Disc()))
      ensures var F := old(Fat());
        if IsCluster(F, clst) && (pclst == 0 || IsCluster(F, pclst))
        then RemoveResult(F, clst, pclst, Eoc(g)) == Outcome(Fat(), res == FrOk)
        else Disc() == old(Disc()) && res == FrIntErr
      ensures InFat(g, winsect) || winsect == old(winsect)
      ensures Noted(old(freeClst), old(fsiFlag), freeClst, fsiFlag)
    {
      if clst < 2 || clst >= g.nFatent { return FrIntErr; }
      ghost var d := Disc();
      if pclst != 0 {
        if pclst == 1 || pclst >= g.nFatent { return FrIntErr; }
        EndChain(pclst);
      }
      ghost var m := Disc();
      res := FreeFrom(clst);
      BesideTrans(g, d, m, Disc());
    }

    // ---------------------------------------------------------------- create_chain

    /** The next free cluster after `scl`, going round once: 0 when there is none, 1 when the scan meets the
        reserved value. */
    method NextFree(scl: nat) returns (ncl: nat)
      requires Core() && 1 <= scl < g.nFatent
      modifies this`disk, this`wflag, this`winsect, win
      ensures Core() && Disc() == old(Disc())
      ensures Searched(Fat(), scl, ncl)
      ensures InFat(g, winsect) || winsect == old(winsect)
    {
      ghost var F := Fat();
      ghost var wrapped := false;
      ncl := scl;
      while true
        invariant Core() && Disc() == old(Disc())
        invariant InFat(g, winsect) || winsect == old(winsect)
        invariant if wrapped then 1 <= ncl < scl else scl <= ncl < g.nFatent
        invariant Scanned(F, scl, ncl, wrapped)
        decreases (if wrapped then 0 else 1), g.nFatent - ncl
      {
        ncl := ncl + 1;
        if ncl >= g.nFatent {
          ncl := 2;
          WrapScan(F, scl);
          if ncl > scl { return 0; }
          wrapped := true;
        }
        var cs := GetFat(ncl);
        ScanMore(F, scl, ncl, wrapped);
        if cs == 0 { return; }
        if cs == 1 { return 1; }
        if ncl == scl { return 0; }
      }
    }

    /** A free cluster to follow `clst`: the very next one if it is free, otherwise the search goes on from
        the last allocated cluster. */
    method NextFreeAfter(clst: nat) returns (ncl: nat)
      requires Core() && IsCluster(Fat(), clst)
      modifies this`disk, this`wflag, this`winsect, win
      ensures Core() && Disc() == old(Disc())
      ensures FoundOne(Fat(), ncl) && (ncl > 1 ==> PlacedFor(Fat(), clst, lastClst, ncl))
      ensures InFat(g, winsect) || winsect == old(winsect)
    {
      ghost var F := Fat();
      ncl := if clst + 1 >= g.nFatent then 2 else clst + 1;
      var cs := GetFat(ncl);
      if cs == 1 {
        ReservedFound(F, ncl);
        return 1;
      }
      if cs != 0 {
        cs := lastClst;
        var scl := if cs >= 2 && cs < g.nFatent then cs else clst;
        ncl := NextFree(scl);
      }
    }

    /** Takes cluster `ncl` and links it from `clst`, if that is not 0. */
    method LinkCluster(clst: nat, ncl: nat)
      requires Counted() && IsCluster(Fat(), ncl) && Fat()[ncl] == 0 && freeClst != 0
      requires clst == 0 || (IsCluster(Fat(), clst) && Fat()[clst] != 0)
      modifies this`disk, this`wflag, this`winsect, win, this`freeClst, this`lastClst, this`fsiFlag
      ensures Counted() && InfoApart() == old(InfoApart()) && SameBeside(g, Disc(), old(Disc()))
      ensures InFat(g, winsect) || winsect == old(winsect)
      ensures Fat() == Linked(old(Fat()), clst, ncl, Eoc(g))
      ensures Took(old(freeClst), old(fsiFlag), ncl)
    {
      EocEndsChain(g, |disk|);
      ghost var d, F := Disc(), Fat();
      LinkTakesOne(F, clst, ncl, Eoc(g));
      var res := PutFat(ncl, 0xFFFF_FFFF);
      if res == FrOk && clst != 0 {
        ghost var m := Disc();
        res := PutFat(clst, ncl);
        BesideTrans(g, d, m, Disc());
      }
      lastClst := ncl;
      if freeClst <= g.nFatent - 2 { freeClst := freeClst - 1; }
      fsiFlag := WithBit0(fsiFlag);
    }

    /** Cluster `ncl` was the last one taken, and there is one less. */
    predicate Took(free: Word, flag: Byte, ncl: nat)
      reads this
    {
      && lastClst == ncl && fsiFlag % 2 == 1 && fsiFlag / 2 == flag / 2
      && freeClst == if free <= g.nFatent - 2 then free - 1 else free
    }

    /** Looks for a cluster to add and adds it: 0 when none is free, 1 on a damaged table. */
    method Extend(clst: nat) returns (ncl: nat)
      requires Counted() && (clst == 0 || (IsCluster(Fat(), clst) && Fat()[clst] != 0))
      modifies this`disk, this`wflag, this`winsect, win, this`freeClst, this`lastClst, this`fsiFlag
      ensures Counted() && InfoApart() == old(InfoApart()) && SameBeside(g, Disc(), old(Disc()))
      ensures Extended(g, old(Fat()), Fat(), clst, ncl)
      ensures ncl <= 1 ==> Disc() == old(Disc())
      ensures if ncl > 1 then PlacedFor(old(Fat()), clst, old(lastClst), ncl) && Took(old(freeClst), old(fsiFlag), ncl)
              else lastClst == old(lastClst) && freeClst == old(freeClst) && fsiFlag == old(fsiFlag)
      ensures InFat(g, winsect) || winsect == old(winsect)
    {
      if freeClst == 0 {
        NoneFree(Fat(), |Fat()|);
        return 0;
      }
      if clst == 0 {
        var scl := lastClst;
        if scl == 0 || scl >= g.nFatent { scl := 1; }
        ncl := NextFree(scl);
      } else {
        ncl := NextFreeAfter(clst);
      }
      if ncl > 1 { LinkCluster(clst, ncl); }
    }

    /** Follows the chain at `clst` one cluster on, stretching it if it ends there, or starts a new chain when
        `clst` is 0. */
    method CreateChain(clst: nat) returns (ncl: nat)
      requires Counted()
      modifies this`disk, this`wflag, this`winsect, win, this`freeClst, this`lastClst, this`fsiFlag
      ensures Counted() && InfoApart() == old(InfoApart()) && SameBeside(g, Disc(), old(Disc()))
      ensures Created(g, old(Fat()), Fat(), clst, ncl)
      ensures Fat() == old(Fat()) ==> Disc() == old(Disc())
      ensures if Fat() != old(Fat())
              then PlacedFor(old(Fat()), clst, old(lastClst), ncl) && Took(old(freeClst), old(fsiFlag), ncl)
              else lastClst == old(lastClst) && freeClst == old(freeClst) && fsiFlag == old(fsiFlag)
      ensures InFat(g, winsect) || winsect == old(winsect)
    {
      if clst != 0 {
        var cs := GetFat(clst);
        if cs < 2 { return 1; }
        if cs < g.nFatent { return cs; }
      }
      ghost var F := Fat();
      ncl := Extend(clst);
      EocEndsChain(g, |disk|);
      assert ncl > 1 ==> Fat()[ncl] != F[ncl];
    }

    // ---------------------------------------------------------------- f_getfree

    /** Counts the zero entries, unless the count is already known. On FAT12 the scan gives up at a reserved
        value; on FAT16 and FAT32 it takes in entries 0 and 1 and is exact if and only if neither is zero. */
    method GetFree() returns (res: FResult, nfree: nat)
      requires Counted()
      modifies this`disk, this`wflag, this`winsect, win, this`freeClst, this`fsiFlag
      ensures Core() && Disc() == old(Disc())
      ensures var known := old(freeClst) <= g.nFatent - 2;
        var F := Fat();
        && res == (if !known && g.fsType == Fat12 && HasReserved(F) then FrIntErr else FrOk)
        && (res == FrOk ==> freeClst == nfree)
        && (res == FrOk ==> (nfree == Free(F) <==> known || g.fsType == Fat12 || (F[0] != 0 && F[1] != 0)))
        && (res == FrOk ==>
              nfree == Free(F) + if known || g.fsType == Fat12 then 0 else IsZero(F[0]) + IsZero(F[1]))
        && (res == FrOk && !known ==> fsiFlag % 2 == 1)
        && (known ==> fsiFlag == old(fsiFlag))
        && (res != FrOk ==> freeClst == old(freeClst) && fsiFlag == old(fsiFlag))
      ensures (res != FrOk || nfree == Free(Fat()) ==> Counted()) && InfoApart() == old(InfoApart())
    {
      nfree := 0;
      if freeClst <= g.nFatent - 2 { return FrOk, freeClst; }
      res, nfree := ScanTable();
      if res == FrOk {
        freeClst := nfree;
        fsiFlag := WithBit0(fsiFlag);
      }
    }

    method ScanTable() returns (res: FResult, nfree: nat)
      requires Core()
      modifies this`disk, this`wflag, this`winsect, win
      ensures Core() && Disc() == old(Disc())
      ensures res == if g.fsType == Fat12 && HasReserved(Fat()) then FrIntErr else FrOk
      ensures res == FrOk ==> nfree == ScanCount(g, Fat(), g.nFatent)
      ensures res == FrOk ==>
        (nfree == Free(Fat()) <==> g.fsType == Fat12 || (Fat()[0] != 0 && Fat()[1] != 0))
        && nfree == Free(Fat()) + if g.fsType == Fat12 then 0 else IsZero(Fat()[0]) + IsZero(Fat()[1])
    {
      res := FrOk;
      ScanExact(g, Fat(), g.nFatent);
      if g.fsType == Fat12 {
        res, nfree := ScanBits();
      } else {
        nfree := ScanWords();
      }
    }

    /** FAT12: entry after entry. */
    method ScanBits() returns (res: FResult, nfree: nat)
      requires Core() && g.fsType == Fat12
      modifies this`disk, this`wflag, this`winsect, win
      ensures Core() && Disc() == old(Disc())
      ensures res == if HasReserved(Fat()) then FrIntErr else FrOk
      ensures res == FrOk ==> nfree == ScanCount(g, Fat(), g.nFatent)
    {
      ghost var d := Disc();
      ghost var F := Table(g, d);
      nfree := 0;
      var clst := 2;
      FirstScan(g, F);
      while clst < g.nFatent
        invariant Core() && Disc() == d && 2 <= clst <= g.nFatent
        invariant NoneReserved(F, clst)
        invariant nfree == ScanCount(g, F, clst)
      {
        var stat := EntryStatus(clst);
        if stat == 1 {
          ReservedFound(F, clst);
          return FrIntErr, nfree;
        }
        ScanStep(g, F, clst);
        if stat == 0 { nfree := nfree + 1; }
        clst := clst + 1;
      }
      NotReserved(F);
      res := FrOk;
    }

    /** FAT16 and FAT32: the table's sectors one after the other, entry 0 first. */
    method ScanWords() returns (nfree: nat)
      requires Core() && g.fsType != Fat12
      modifies this`disk, this`wflag, this`winsect, win
      ensures Core() && Disc() == old(Disc())
      ensures nfree == ScanCount(g, Fat(), g.nFatent)
    {
      ghost var d := Disc();
      nfree := 0;
      var clst: nat, sect: nat, i: nat := g.nFatent, g.fatbase, 0;
      ghost var k: nat := 0;
      FirstWord();
      while clst > 0
        invariant k + clst == g.nFatent && Scanning(d, k, sect, i, nfree)
      {
        sect, i, nfree := CountWord(sect, i, nfree, k, d);
        k, clst := k + 1, clst - 1;
      }
    }

    /** The first `k` entries are counted. */
    ghost predicate Scanning(d: Disc, k: nat, sect: nat, i: nat, nfree: nat)
      reads this, win
    {
      && Core() && Disc() == d && g.fsType != Fat12 && k <= g.nFatent
      && AtEntry(k, sect, i) && nfree == ScanCount(g, Table(g, d), k)
    }

    lemma FirstWord()
      requires Core() && g.fsType != Fat12
      ensures Scanning(Disc(), 0, g.fatbase, 0, 0)
    {
      FirstScan(g, Table(g, Disc()));
    }

    method CountWord(sect: nat, i: nat, nfree: nat, ghost k: nat, ghost d: Disc)
      returns (next: nat, j: nat, n: nat)
      requires Scanning(d, k, sect, i, nfree) && k < g.nFatent
      modifies this`disk, this`wflag, this`winsect, win
      ensures Scanning(d, k + 1, next, j, n)
    {
      next := ScanSector(sect, i, k);
      var zero := EntryIsZero(i, k);
      n := if zero then nfree + 1 else nfree;
      j := (i + EntrySize(g.fsType)) % SS;
      ScanStep(g, Table(g, d), k);
      NextPlace(g.fsType, k);
    }

    /** Entry `k` is at byte `i` of a sector: the one in the window, which `sect` follows, or when `i` is 0
        still to be fetched, sector `sect`. */
    ghost predicate AtEntry(k: nat, sect: nat, i: nat)
      reads this
    {
      var at := EntrySize(g.fsType) * k;
      && i == at % SS && sect == g.fatbase + at / SS + (if i == 0 then 0 else 1)
      && (i != 0 ==> winsect == g.fatbase + at / SS)
    }

    method ScanSector(sect: nat, i: nat, ghost k: nat) returns (next: nat)
      requires Core() && g.fsType != Fat12 && k < g.nFatent && AtEntry(k, sect, i)
      modifies this`disk, this`wflag, this`winsect, win
      ensures Core() && Disc() == old(Disc()) && win[..] == Disc()[winsect]
      ensures winsect == g.fatbase + EntrySize(g.fsType) * k / SS && next == winsect + 1
    {
      EntryInside(g, |disk|, k);
      OverlayTwice(g, disk, wflag, winsect, win[..], win[..]);
      next := sect;
      if i == 0 {
        MoveWindow(sect);
        next := sect + 1;
      }
    }

    method EntryIsZero(i: nat, ghost k: nat) returns (zero: bool)
      requires Core() && g.fsType != Fat12 && k < g.nFatent && i == EntrySize(g.fsType) * k % SS
      requires winsect == g.fatbase + EntrySize(g.fsType) * k / SS && win[..] == Disc()[winsect]
      ensures zero <==> Fat()[k] == 0
    {
      EntryInWindow(g, Disc(), k, i, winsect);
      if g.fsType == Fat16 {
        zero := Word16(win[i], win[i + 1]) == 0;
      } else {
        var raw := Word32(win[i], win[i + 1], win[i + 2], win[i + 3]);
        Low28(raw);
        zero := And(raw, 0x0FFF_FFFF) == 0;
      }
    }

    // ---------------------------------------------------------------- the medium itself

    /** `disk_read` of data sectors, past the window. */
    method DiskRead(sect: nat, cc: nat) returns (x: seq<Byte>)
      requires Core() && g.database <= sect && sect + cc <= |disk|
      requires !(sect <= winsect < sect + cc)
      ensures x == Flat(Disc(), sect, cc)
    {
      x := Flat(disk, sect, cc);
      forall t | sect <= t < sect + cc ensures Disc()[t] == disk[t] {
        OverlayBeside(g, disk, wflag, winsect, win[..], t);
      }
      SameFlat(disk, Disc(), sect, cc);
    }

    /** `disk_write` of data sectors, past the window. */
    method DiskWrite(sect: nat, cc: nat, x: seq<Byte>)
      requires Valid() && g.database <= sect && sect + cc <= |disk| && |x| == SS * cc
      requires !(sect <= winsect < sect + cc)
      modifies this`disk
      ensures Valid() && Disc() == Written(old(Disc()), sect, cc, x)
      ensures Fat() == old(Fat())
    {
      ghost var d, was := Disc(), disk;
      disk := Written(disk, sect, cc, x);
      WrittenBeside(g, was, wflag, winsect, win[..], sect, cc, x);
      SameTable(g, d, Disc());
    }

    /** Changes bytes of the sector in the window, which is none of the FAT. */
    method PatchWindow(k: nat, x: seq<Byte>)
      requires Valid() && k + |x| <= 512 && !InFats(g, winsect)
      modifies this`wflag, win
      ensures Valid() && Disc() == old(Disc())[winsect := Patch(old(Disc())[winsect], k, x)]
      ensures Fat() == old(Fat())
    {
      ghost var was, dirty, w := Disc(), wflag, win[..];
      OverlayTwice(g, disk, dirty, winsect, w, w);
      forall i | 0 <= i < |x| { win[k + i] := x[i]; }
      wflag := true;
      assert win[..] == Patch(w, k, x);
      Dirtied(was, dirty, w);
      SameTable(g, was, Disc());
    }

    // ---------------------------------------------------------------- sync_fs

    /** Will syncing write the FSInfo sector? */
    predicate InfoDue()
      reads this
    {
      g.fsType == Fat32 && fsiFlag == 1
    }

    /** Writes the window back and then, on FAT32, the free-cluster information if it changed. Where the
        FSInfo sector is the first sector of the FAT, this overwrites the table: cluster 2 reads as free. */
    method SyncFs()
      requires Counted()
      modifies this`disk, this`wflag, this`winsect, win, this`fsiFlag
      ensures !wflag && |disk| == |old(Disc())| && win[..] == SectorOrZero(disk, winsect)
      ensures disk ==
        if old(InfoDue()) then old(Disc())[g.volbase + 1 := InfoSector(freeClst, lastClst)] else old(Disc())
      ensures fsiFlag == if old(InfoDue()) then 0 else old(fsiFlag)
      ensures !old(InfoDue()) || g.volbase + 1 < g.fatbase ==>
        Counted() && Disc() == disk && Fat() == old(Fat()) && (old(InfoApart()) ==> Valid())
      ensures old(InfoDue()) && g.volbase + 1 == g.fatbase ==> Entry(g, disk, ROOT) == 0
      ensures winsect == old(winsect) || (old(InfoDue()) && winsect == g.volbase + 1)
    {
      SyncWindow();
      if g.fsType == Fat32 && fsiFlag == 1 { WriteInfo(); }
    }

    method WriteInfo()
      requires Counted() && !wflag && disk == Disc() && g.fsType == Fat32 && fsiFlag == 1
      modifies this`disk, this`winsect, win, this`fsiFlag
      ensures disk == old(disk)[g.volbase + 1 := InfoSector(freeClst, lastClst)]
      ensures winsect == g.volbase + 1 && win[..] == SectorOrZero(disk, winsect) && fsiFlag == 0
      ensures g.volbase + 1 < g.fatbase ==> Counted() && Disc() == disk && Fat() == old(Fat())
      ensures g.volbase + 1 == g.fatbase ==> Entry(g, disk, ROOT) == 0
    {
      ghost var d := disk;
      var info := InfoSector(freeClst, lastClst);
      forall i | 0 <= i < 512 { win[i] := info[i]; }
      winsect := g.volbase + 1;
      assert win[..] == info;
      disk := disk[winsect := win[..]];
      fsiFlag := 0;
      if g.volbase + 1 < g.fatbase {
        InfoBeside(g, d, winsect, info);
      } else {
        InfoOverTable(g, d, freeClst, lastClst, ROOT);
      }
    }
  }

  function SectorOrZero(d: Disc, s: nat): (x: Sector) {
    if s < |d| then d[s] else Zeroes(512)
  }

  /** The bytes of a sector where entry `c` of a FAT32 table that starts with it would be are zero. */
  predicate WordZero(x: Sector, c: nat) {
    4 * c + 3 < SS && x[4 * c] == 0 && x[4 * c + 1] == 0 && x[4 * c + 2] == 0 && x[4 * c + 3] == 0
  }

  lemma InfoZero(free: Word, last: Word, c: nat)
    requires c == 2
    ensures WordZero(InfoSector(free, last), c)
  {
    var x := InfoSector(free, last);
    assert x[8..12] == Zeroes(4);
    assert x[8] == x[8..12][0] && x[9] == x[8..12][1] && x[10] == x[8..12][2] && x[11] == x[8..12][3];
  }

  lemma FirstSector(g: Geometry, d: Disc, i: nat)
    requires g.fatbase < |d| && i < SS
    ensures FatByte(g, d, i) == d[g.fatbase][i]
  {}

  lemma ZeroBytes(g: Geometry, e: Disc, c: nat)
    requires FatByte(g, e, 4 * c) == 0 && FatByte(g, e, 4 * c + 1) == 0
    requires FatByte(g, e, 4 * c + 2) == 0 && FatByte(g, e, 4 * c + 3) == 0
    ensures Raw32(g, e, c) == 0
  {}

  lemma ZeroRaw(g: Geometry, e: Disc, c: nat)
    requires g.fatbase < |e| && WordZero(e[g.fatbase], c)
    ensures Raw32(g, e, c) == 0
  {
    FirstSector(g, e, 4 * c);
    FirstSector(g, e, 4 * c + 1);
    FirstSector(g, e, 4 * c + 2);
    FirstSector(g, e, 4 * c + 3);
    ZeroBytes(g, e, c);
  }

  lemma RawEntry(g: Geometry, e: Disc, c: nat)
    requires g.fsType == Fat32 && Raw32(g, e, c) == 0
    ensures Entry(g, e, c) == 0
  {}

  /** A table whose first sector has zeroes there has a free cluster. */
  lemma ZeroEntry(g: Geometry, e: Disc, c: nat)
    requires g.fatbase < |e| && g.fsType == Fat32 && WordZero(e[g.fatbase], c)
    ensures Entry(g, e, c) == 0
  {
    ZeroRaw(g, e, c);
    RawEntry(g, e, c);
  }

  lemma InfoOverTable(g: Geometry, d: Disc, free: Word, last: Word, c: nat)
    requires GeometryOk(g, |d|) && g.fsType == Fat32 && g.volbase + 1 == g.fatbase && c == 2
    ensures Entry(g, d[g.volbase + 1 := InfoSector(free, last)], c) == 0
  {
    InfoZero(free, last, c);
    ZeroEntry(g, d[g.fatbase := InfoSector(free, last)], c);
  }

  /** Writing such a sector next to the boot sector keeps the table, and the two FATs the same, if and only if
      that place is in front of the FAT, on any volume whose cluster 2 is in use. */
  lemma SectorKeepsTable(g: Geometry, d: Disc, x: Sector, c: nat)
    requires GeometryOk(g, |d|) && g.fsType == Fat32 && Mirrored(g, d) && c < g.nFatent
    requires Entry(g, d, c) != 0 && WordZero(x, c)
    ensures var e := d[g.volbase + 1 := x];
      (Table(g, e) == Table(g, d) && Mirrored(g, e)) <==> g.volbase + 1 < g.fatbase
  {
    var e: Disc := d[g.volbase + 1 := x];
    if g.volbase + 1 < g.fatbase {
      InfoBeside(g, d, g.volbase + 1, x);
    } else {
      ZeroEntry(g, e, c);
      DifferentTables(g, d, e, c);
    }
  }

  lemma DifferentTables(g: Geometry, d: Disc, e: Disc, c: nat)
    requires c < g.nFatent && Entry(g, d, c) != Entry(g, e, c)
    ensures Table(g, d) != Table(g, e)
  {
    assert Table(g, d)[c] == Entry(g, d, c) && Table(g, e)[c] == Entry(g, e, c);
  }

  /** Syncing a FAT32 volume keeps its table if and only if the FSInfo sector is in front of the FAT. */
  lemma InfoKeepsTable(g: Geometry, d: Disc, free: Word, last: Word, c: nat)
    requires GeometryOk(g, |d|) && g.fsType == Fat32 && Mirrored(g, d) && c == 2 && Entry(g, d, c) != 0
    ensures var e := d[g.volbase + 1 := InfoSector(free, last)];
      (Table(g, e) == Table(g, d) && Mirrored(g, e)) <==> g.volbase + 1 < g.fatbase
  {
    InfoZero(free, last, c);
    SectorKeepsTable(g, d, InfoSector(free, last), c);
  }

  lemma OverlayBeside(g: Geometry, disk: Disc, dirty: bool, s: nat, x: Sector, t: nat)
    requires WindowOk(g, disk, dirty, s, x) && g.database <= t < |disk| && t != s
    ensures Overlay(g, disk, dirty, s, x)[t] == disk[t]
  {}

  lemma SameFlat(d: Disc, e: Disc, s: nat, n: nat)
    requires s + n <= |d| == |e| && forall t :: s <= t < s + n ==> d[t] == e[t]
    ensures Flat(d, s, n) == Flat(e, s, n)
  {}

  /** Writing data sectors past the window and looking through the window commute. */
  lemma WrittenBeside(g: Geometry, disk: Disc, dirty: bool, w: nat, y: Sector, s: nat, n: nat, x: seq<Byte>)
    requires WindowOk(g, disk, dirty, w, y)
    requires g.database <= s && s + n <= |disk| && |x| == SS * n && !(s <= w < s + n)
    ensures WindowOk(g, Written(disk, s, n, x), dirty, w, y)
    ensures Overlay(g, Written(disk, s, n, x), dirty, w, y) == Written(Overlay(g, disk, dirty, w, y), s, n, x)
  {
    if g.nFats == 2 {
      forall t | g.fatbase <= t < g.fatbase + g.fsize ensures MirrorAt(g, Written(disk, s, n, x), t) {
        assert MirrorAt(g, disk, t);
      }
    }
  }

  lemma InfoBeside(g: Geometry, d: Disc, s: nat, x: Sector)
    requires GeometryOk(g, |d|) && s < g.fatbase && Mirrored(g, d)
    ensures Mirrored(g, d[s := x]) && Table(g, d[s := x]) == Table(g, d)
  {
    var e: Disc := d[s := x];
    if g.nFats == 2 {
      forall t | g.fatbase <= t < g.fatbase + g.fsize ensures MirrorAt(g, e, t) {
        assert MirrorAt(g, d, t);
      }
    }
    SameTable(g, d, e);
  }

  /** The FSInfo sector: signatures around the free count and the last allocated cluster. */
  function InfoSector(free: Word, last: Word): (x: Sector)
  {
    Bytes32(0x41615252) + Zeroes(480) + Bytes32(0x61417272) + Bytes32(free) + Bytes32(last)
      + Zeroes(14) + [0x55, 0xAA]
  }

  function Zeroes(n: nat): (x: seq<Byte>)
    ensures |x| == n && forall i :: 0 <= i < n ==> x[i] == 0
  {
    seq(n, i => 0)
  }

  function LoadAt(x: Sector, k: nat): (v: Word)
    requires k + 4 <= 512
  {
    Word32(x[k], x[k + 1], x[k + 2], x[k + 3])
  }

  /** Mounting reads back what syncing wrote: the signatures match and the counts are the same. */
  lemma InfoReadsBack(free: Word, last: Word)
    ensures var x := InfoSector(free, last);
      LoadAt(x, 0) == 0x41615252 && LoadAt(x, 484) == 0x61417272 && Word16(x[510], x[511]) == 0xAA55
      && LoadAt(x, 488) == free && LoadAt(x, 492) == last
      && forall i :: 4 <= i < 484 || 496 <= i < 510 ==> x[i] == 0
  {
    var x := InfoSector(free, last);
    LoadStored32(0x41615252);
    LoadStored32(0x61417272);
    LoadStored32(free);
    LoadStored32(last);
    assert x[0..4] == Bytes32(0x41615252);
    assert x[484..488] == Bytes32(0x61417272);
    assert x[488..492] == Bytes32(free);
    assert x[492..496] == Bytes32(last);
  }

  /** The count only rose, and if it did, bit 0 of the flag says so. */
  predicate Noted(free: Word, flag: Byte, count: Word, mark: Byte) {
    free <= count && mark == if count == free then flag else WithBit0(flag)
  }

  lemma NotedTwice(free: Word, flag: Byte, n: Word, b: Byte, count: Word, mark: Byte)
    requires Noted(free, flag, n, b) && Noted(n, b, count, mark)
    ensures Noted(free, flag, count, mark)
  {}

  /** `flag | 1`. */
  function WithBit0(flag: Byte): (r: Byte)
    ensures (r >= 0x80 <==> flag >= 0x80) && r % 2 == 1 && r / 2 == flag / 2
  {
    if flag % 2 == 0 then flag + 1 else flag
  }

  /** The scan has passed the clusters after `scl` up to `ncl` without finding a free one. */
  ghost predicate Scanned(F: seq<nat>, scl: nat, ncl: int, wrapped: bool) {
    forall c :: IsCluster(F, c) && (if wrapped then scl < c || c <= ncl else scl < c <= ncl) ==> F[c] != 0
  }

  /** What a search for a free cluster may report. */
  ghost predicate FoundOne(F: seq<nat>, r: nat) {
    if r == 0 then NoFree(F) else if r == 1 then HasReserved(F) else IsCluster(F, r) && F[r] == 0
  }

  /** A cyclic search from `scl` finds the nearest one. */
  ghost predicate Searched(F: seq<nat>, scl: nat, r: nat) {
    FoundOne(F, r) && (r > 1 ==> Nearest(F, scl, r))
  }

  lemma ReservedFound(F: seq<nat>, c: nat)
    requires IsCluster(F, c) && F[c] == 1
    ensures HasReserved(F)
  {}

  /** Going round: everything after `scl` has been looked at. */
  lemma WrapScan(F: seq<nat>, scl: nat)
    requires Scanned(F, scl, |F| - 1, false) || |F| == 0
    ensures Scanned(F, scl, 1, true)
    ensures scl < 2 ==> NoFree(F)
  {}

  /** The scan looks at `r` next. */
  lemma ScanMore(F: seq<nat>, scl: nat, r: nat, wrapped: bool)
    requires IsCluster(F, r) && Scanned(F, scl, r - 1, wrapped)
    requires if wrapped then r <= scl else scl < r
    ensures F[r] == 0 ==> Searched(F, scl, r)
    ensures F[r] == 1 ==> Searched(F, scl, 1)
    ensures F[r] != 0 && r == scl ==> Searched(F, scl, 0)
    ensures F[r] != 0 ==> Scanned(F, scl, r, wrapped)
  {}

  lemma CountFreed(g: Geometry, F: seq<nat>, c: nat, count: Word)
    requires |F| == g.nFatent && CountOk(g, F, count) && IsCluster(F, c) && F[c] != 0 && |F| <= 0x1000_0000
    ensures CountOk(g, F[c := 0], if count < g.nFatent - 2 then count + 1 else count)
  {
    FreeUpdate(F, c, 0);
  }

  lemma LinkTakesOne(F: seq<nat>, p: nat, r: nat, eoc: nat)
    requires IsCluster(F, r) && F[r] == 0 && eoc > 0 && (p == 0 || (IsCluster(F, p) && F[p] != 0))
    ensures Free(Linked(F, p, r, eoc)) == Free(F) - 1
    ensures Free(F) <= |F| - 2
  {
    FreeUpdate(F, r, eoc);
    if p != 0 { FreeUpdate(F[r := eoc], p, r); }
  }

  /** What looking for a cluster and adding it comes to: nothing changes unless a free one is found. */
  ghost predicate Extended(g: Geometry, F: seq<nat>, G: seq<nat>, p: nat, r: nat) {
    && FoundOne(F, r)
    && (p == 0 || IsCluster(F, p))
    && G == if r > 1 then Linked(F, p, r, Eoc(g)) else F
  }

  /** What `create_chain(p)` comes to. */
  ghost predicate Created(g: Geometry, F: seq<nat>, G: seq<nat>, p: nat, r: nat) {
    if p == 0 || (IsCluster(F, p) && F[p] >= |F|) then Extended(g, F, G, p, r)
    else if IsCluster(F, p) && F[p] >= 2 then G == F && r == F[p]
    else G == F && r == 1
  }

  /** Bytes of a FAT16 or FAT32 entry. */
  function EntrySize(t: FsType): (n: nat) { if t == Fat16 then 2 else 4 }

  lemma NextPlace(t: FsType, k: nat)
    ensures var at, n := EntrySize(t) * k, EntrySize(t);
      var after := EntrySize(t) * (k + 1);
      after % SS == (at % SS + n) % SS && after / SS == at / SS + (if after % SS == 0 then 1 else 0)
  {}

  /** Zero entries among those below `k` that the scan for free clusters looks at. */
  function ScanCount(g: Geometry, F: seq<nat>, k: nat): (r: nat)
    requires k <= |F|
    ensures r <= k
  {
    if k == 0 || (g.fsType == Fat12 && k <= 2) then 0
    else ScanCount(g, F, k - 1) + (if F[k - 1] == 0 then 1 else 0)
  }

  lemma ScanStep(g: Geometry, F: seq<nat>, k: nat)
    requires k < |F| && (k >= 2 || g.fsType != Fat12)
    ensures ScanCount(g, F, k + 1) == ScanCount(g, F, k) + (if F[k] == 0 then 1 else 0)
  {}

  lemma FirstScan(g: Geometry, F: seq<nat>)
    requires |F| == g.nFatent >= 2
    ensures ScanCount(g, F, if g.fsType == Fat12 then 2 else 0) == 0
  {}

  /** The scan finds the number of free clusters if and only if it is not misled by a zero in entry 0 or 1. */
  lemma {:induction false} ScanExact(g: Geometry, F: seq<nat>, k: nat)
    requires 2 <= k <= |F|
    ensures ScanCount(g, F, k) == Zeros(F, k) + if g.fsType == Fat12 then 0 else IsZero(F[0]) + IsZero(F[1])
    ensures ScanCount(g, F, k) == Zeros(F, k) <==> g.fsType == Fat12 || (F[0] != 0 && F[1] != 0)
  {
    if k == 2 {
      assert ScanCount(g, F, 0) == 0;
      assert g.fsType != Fat12 ==> ScanCount(g, F, 1) == IsZero(F[0]);
      assert g.fsType != Fat12 ==> ScanCount(g, F, 2) == IsZero(F[0]) + IsZero(F[1]);
    } else {
      ScanExact(g, F, k - 1);
    }
  }

  /** Bytes of one sector of the table are next to each other. */
  lemma SameSector(g: Geometry, d: Disc, i: nat, n: nat, j: nat)
    requires GeometryOk(g, |d|) && i % SS + n <= SS && j < n && i + j < SS * g.fsize
    ensures FatByte(g, d, i + j) == d[g.fatbase + i / SS][i % SS + j]
  {}

  /** The reserved upper 4 bits of every FAT32 entry are the same in both discs. */
  ghost predicate UpperKept(g: Geometry, d: Disc, e: Disc) {
    forall c :: 0 <= c < g.nFatent ==> Raw32(g, e, c) / 0x1000_0000 == Raw32(g, d, c) / 0x1000_0000
  }

  lemma EntryFits(c: nat)
    ensures 2 * c % SS + 2 <= SS && 4 * c % SS + 4 <= SS
  {}

  lemma RawInSector(g: Geometry, d: Disc, c: nat)
    requires GeometryOk(g, |d|) && 4 * c + 3 < SS * g.fsize && 4 * c % SS + 4 <= SS
    ensures var x := d[g.fatbase + 4 * c / SS];
      var k := 4 * c % SS;
      Raw32(g, d, c) == Word32(x[k], x[k + 1], x[k + 2], x[k + 3])
  {
    FourBytes(g, d, 4 * c);
  }

  lemma FourBytes(g: Geometry, d: Disc, i: nat)
    requires GeometryOk(g, |d|) && i + 3 < SS * g.fsize && i % SS + 4 <= SS
    ensures FatByte(g, d, i) == d[g.fatbase + i / SS][i % SS]
    ensures FatByte(g, d, i + 1) == d[g.fatbase + i / SS][i % SS + 1]
    ensures FatByte(g, d, i + 2) == d[g.fatbase + i / SS][i % SS + 2]
    ensures FatByte(g, d, i + 3) == d[g.fatbase + i / SS][i % SS + 3]
  {
    SameSector(g, d, i, 4, 0);
    SameSector(g, d, i, 4, 1);
    SameSector(g, d, i, 4, 2);
    SameSector(g, d, i, 4, 3);
  }

  lemma WordInSector(g: Geometry, d: Disc, c: nat)
    requires GeometryOk(g, |d|) && g.fsType == Fat16 && c < g.nFatent && 2 * c % SS + 2 <= SS
    ensures g.fatbase + 2 * c / SS < |d|
    ensures Entry(g, d, c) == Word16(d[g.fatbase + 2 * c / SS][2 * c % SS], d[g.fatbase + 2 * c / SS][2 * c % SS + 1])
  {
    EntryInside(g, |d|, c);
    SameSector(g, d, 2 * c, 2, 0);
    SameSector(g, d, 2 * c, 2, 1);
  }

  lemma DwordInSector(g: Geometry, d: Disc, c: nat)
    requires GeometryOk(g, |d|) && g.fsType == Fat32 && c < g.nFatent && 4 * c % SS + 4 <= SS
    ensures g.fatbase + 4 * c / SS < |d|
    ensures var x := d[g.fatbase + 4 * c / SS];
      var k := 4 * c % SS;
      Entry(g, d, c) == Word32(x[k], x[k + 1], x[k + 2], x[k + 3]) % 0x1000_0000
  {
    EntryInside(g, |d|, c);
    RawInSector(g, d, c);
  }

  /** Entry `k` in its sector, from byte `i` on. */
  lemma EntryInWindow(g: Geometry, d: Disc, k: nat, i: nat, s: nat)
    requires GeometryOk(g, |d|) && g.fsType != Fat12 && k < g.nFatent
    requires i == EntrySize(g.fsType) * k % SS && s == g.fatbase + EntrySize(g.fsType) * k / SS
    ensures s < |d| && i + EntrySize(g.fsType) <= SS
    ensures g.fsType == Fat16 ==> Table(g, d)[k] == Word16(d[s][i], d[s][i + 1])
    ensures g.fsType == Fat32 ==>
      Table(g, d)[k] == Word32(d[s][i], d[s][i + 1], d[s][i + 2], d[s][i + 3]) % 0x1000_0000
  {
    EntryFits(k);
    if g.fsType == Fat16 { WordInSector(g, d, k); } else { DwordInSector(g, d, k); }
  }

  lemma Low28(raw: Word)
    ensures And(raw, 0x0FFF_FFFF) == raw % 0x1000_0000
  {
    Pow2Consts();
    LowBits(raw, 28, 0x1000_0000);
  }

  lemma PokedWord(g: Geometry, d: Disc, c: nat, v: Word)
    requires GeometryOk(g, |d|) && g.fsType == Fat16 && c < g.nFatent
    requires 2 * c + 1 < SS * g.fsize && 2 * c % SS + 2 <= SS
    ensures var r := PutBytes(g, d, 2 * c, [v % 256, v / 256 % 256]);
      Table(g, r) == Table(g, d)[c := v % 0x1_0000] && SameBeside(g, r, d)
  {
    var x: seq<Byte> := [v % 256, v / 256 % 256];
    PutBytesReplaces(g, d, 2 * c, x);
    PutBytesBeside(g, d, 2 * c, x);
    Put16(g, d, PutBytes(g, d, 2 * c, x), c, v);
  }

  lemma PokedDword(g: Geometry, d: Disc, c: nat, v: Word)
    requires GeometryOk(g, |d|) && g.fsType == Fat32 && c < g.nFatent
    requires 4 * c + 3 < SS * g.fsize && 4 * c % SS + 4 <= SS
    ensures var r := PutBytes(g, d, 4 * c, Bytes32(Keep4(Raw32(g, d, c), v)));
      Table(g, r) == Table(g, d)[c := v % 0x1000_0000] && SameBeside(g, r, d) && UpperKept(g, d, r)
  {
    var w := Keep4(Raw32(g, d, c), v);
    var r := PutBytes(g, d, 4 * c, Bytes32(w));
    PutBytesReplaces(g, d, 4 * c, Bytes32(w));
    PutBytesBeside(g, d, 4 * c, Bytes32(w));
    Put32(g, d, r, c, w);
    Keep4Halves(Raw32(g, d, c), v);
    UpperSame(g, d, r, c, w);
  }

  lemma UpperSame(g: Geometry, d: Disc, r: Disc, c: nat, w: Word)
    requires c < g.nFatent && RawReplaced(g, d, r, c, w) && w / 0x1000_0000 == Raw32(g, d, c) / 0x1000_0000
    ensures UpperKept(g, d, r)
  {
    forall e | 0 <= e < g.nFatent ensures Raw32(g, r, e) / 0x1000_0000 == Raw32(g, d, e) / 0x1000_0000 {
      assert Raw32(g, r, e) == if e == c then w else Raw32(g, d, e);
    }
  }

  lemma TwoPokes(g: Geometry, d: Disc, m: Disc, r: Disc, c: nat, v: Word)
    requires GeometryOk(g, |d|) && g.fsType == Fat12 && c < g.nFatent && Offset12(c) + 1 < SS * g.fsize
    requires m == PutBytes(g, d, Offset12(c), [First12(c % 2 == 1, FatByte(g, d, Offset12(c)), v)])
    requires r == PutBytes(g, m, Offset12(c) + 1, [Second12(c % 2 == 1, FatByte(g, m, Offset12(c) + 1), v)])
    ensures Table(g, r) == Table(g, d)[c := v % 0x1000] && SameBeside(g, r, d)
  {
    var i := Offset12(c);
    OnePoke(g, d, m, i, First12(c % 2 == 1, FatByte(g, d, i), v));
    OnePoke(g, m, r, i + 1, Second12(c % 2 == 1, FatByte(g, m, i + 1), v));
    BesideTrans(g, d, m, r);
    Put12(g, d, m, r, c, v);
  }

  lemma OnePoke(g: Geometry, d: Disc, r: Disc, i: nat, b: Byte)
    requires GeometryOk(g, |d|) && i < SS * g.fsize && r == PutBytes(g, d, i, [b])
    ensures Replaced(g, d, r, i, [b]) && SameBeside(g, r, d)
  {
    PutBytesReplaces(g, d, i, [b]);
    PutBytesBeside(g, d, i, [b]);
  }

  lemma BesideTrans(g: Geometry, d: Disc, m: Disc, r: Disc)
    requires SameBeside(g, m, d) && SameBeside(g, r, m)
    ensures SameBeside(g, r, d)
  {}
}
