/** The SPI flash device (system/spi_flashdev.c) and the sector disc on it (system/flashdisc.c). */
module Flash {
  import opened Bits
  import opened FlashSteps

  /** The chip: a write-enable latch and cells that erasing sets and programming clears. */
  class NorFlash {
    var cells: seq<Byte>
    var enabled: bool

    constructor (image: seq<Byte>)
      ensures cells == image && !enabled
    {
      cells, enabled := image, false;
    }

    /** Command 0x06. */
    method WriteEnable()
      modifies this`enabled
      ensures enabled
    {
      enabled := true;
    }

    /** Command 0x20: erases the sector `a` is in, if writing is enabled. */
    method SectorErase(a: nat)
      requires a < |cells| && |cells| % SECTOR == 0
      modifies this
      ensures !enabled && |cells| == |old(cells)|
      ensures cells == if old(enabled) then Overwrite(old(cells), a - a % SECTOR, Erased(SECTOR)) else old(cells)
    {
      if enabled { cells := Overwrite(cells, a - a % SECTOR, Erased(SECTOR)); }
      enabled := false;
    }

    /** Command 0x02: programs one page, if writing is enabled. */
    method PageProgram(a: nat, x: seq<Byte>)
      requires a % PAGE == 0 && |x| == PAGE && a + PAGE <= |cells|
      modifies this
      ensures !enabled && |cells| == |old(cells)|
      ensures cells == if old(enabled) then PageProgrammed(old(cells), a, x) else old(cells)
    {
      if enabled { cells := PageProgrammed(cells, a, x); }
      enabled := false;
    }

    /** `flash_memcpy`. */
    method MemCpy(a: nat, n: nat) returns (x: seq<Byte>)
      requires a + n <= |cells|
      ensures x == cells[a..a + n]
    {
      x := cells[a..a + n];
    }
  }

  datatype Whence = SeekSet | SeekCur | SeekEnd | OtherWhence

  const EIO := 5
  const EMFILE := 24
  const EINVAL := 22

  class FlashDevice {
    const nor: NorFlash
    var writebuf: array?<Byte>
    var blkOffset: Word
    var blkEnd: Word
    const fdList: array<OpenFd>

    ghost predicate Valid()
      reads this, nor, writebuf, fdList
    {
      && |nor.cells| == CHIP && fdList.Length == MAX_FLASH_FDS
      && (writebuf != null ==>
            writebuf.Length == SECTOR && blkOffset % SECTOR == 0 && blkEnd == blkOffset + SECTOR && blkEnd <= CHIP)
    }

    /** The byte array the device stands for: the flash with the buffered sector laid over it. */
    ghost function View(): (v: seq<Byte>)
      requires Valid()
      reads this, nor, writebuf, fdList
      ensures |v| == CHIP
    {
      if writebuf == null then nor.cells else Overwrite(nor.cells, blkOffset, writebuf[..])
    }

    constructor (chip: NorFlash)
      requires |chip.cells| == CHIP
      ensures Valid() && nor == chip && writebuf == null && fresh(fdList) && View() == chip.cells
      ensures forall i :: 0 <= i < MAX_FLASH_FDS ==> fdList[i] == OpenFd(0, 0)
    {
      nor := chip;
      writebuf := null;
      blkOffset, blkEnd := 0, 0;
      fdList := new OpenFd[MAX_FLASH_FDS](i => OpenFd(0, 0));
    }

    // ---------------------------------------------------------------- handles

    /** The entry of descriptor `fd`, or -1. */
    method GetFd(fd: int) returns (i: int)
      requires fdList.Length == MAX_FLASH_FDS
      ensures i == Slot(fdList[..], fd)
    {
      i := 0;
      while i < MAX_FLASH_FDS
        invariant 0 <= i <= MAX_FLASH_FDS
        invariant forall j :: 0 <= j < i ==> fdList[j].fd != fd
      {
        if fdList[i].fd == fd { return; }
        i := i + 1;
      }
      i := -1;
    }

    /** Takes the first free entry for `fd`. */
    method Open(fd: int) returns (rc: int)
      requires Valid()
      modifies fdList
      ensures Valid() && View() == old(View())
      ensures var t := old(fdList[..]);
        var i := Slot(t, 0);
        if i < 0 then rc == -EMFILE && fdList[..] == t else rc == 0 && fdList[..] == t[i := OpenFd(fd, 0)]
    {
      var i := GetFd(0);
      if i < 0 { return -EMFILE; }
      fdList[i] := OpenFd(fd, 0);
      rc := 0;
    }

    // ---------------------------------------------------------------- the buffer

    /** Erases the buffered sector and programs it page by page; only that sector of the chip changes, and the
        buffer is given up. */
    method WriteBuffer()
      requires Valid() && writebuf != null
      modifies this`writebuf, this`blkOffset, nor
      ensures Valid() && writebuf == null && View() == old(View()) == nor.cells
      ensures nor.cells == Overwrite(old(nor.cells), old(blkOffset), old(writebuf[..]))
    {
      ghost var cells, off := nor.cells, blkOffset;
      EraseBlock();
      var i := 0;
      while i < 16
        invariant 0 <= i <= 16 && blkOffset == off + PAGE * i && writebuf == old(writebuf)
        invariant Rewriting(nor.cells, cells, off, old(writebuf[..]), PAGE * i)
        modifies this`blkOffset, nor
      {
        WritePage(i, cells, off);
        i := i + 1;
      }
      AllPages(nor.cells, cells, off, writebuf[..]);
      blkOffset := 0;
      writebuf := null;
    }

    method EraseBlock()
      requires Valid() && writebuf != null
      modifies nor
      ensures Rewriting(nor.cells, old(nor.cells), blkOffset, writebuf[..], 0)
    {
      EraseStarts(nor.cells, blkOffset, writebuf[..]);
      nor.WriteEnable();
      nor.SectorErase(blkOffset);
    }

    /** Programs page `i` of the buffer. */
    method WritePage(i: nat, ghost cells: seq<Byte>, ghost off: nat)
      requires writebuf != null && writebuf.Length == SECTOR && |cells| == CHIP
      requires off % SECTOR == 0 && off + SECTOR <= CHIP && i < 16 && blkOffset == off + PAGE * i
      requires Rewriting(nor.cells, cells, off, writebuf[..], PAGE * i)
      modifies this`blkOffset, nor
      ensures Rewriting(nor.cells, cells, off, writebuf[..], PAGE * (i + 1))
      ensures blkOffset == off + PAGE * (i + 1)
    {
      ghost var x, n := writebuf[..], PAGE * i;
      var page := writebuf[PAGE * i..PAGE * i + PAGE];
      assert page == x[n..n + PAGE];
      PageStart(off, i);
      SendPage(page, cells, off, x, n);
    }

    method SendPage(page: seq<Byte>, ghost cells: seq<Byte>, ghost off: nat, ghost x: seq<Byte>, ghost n: nat)
      requires Rewriting(nor.cells, cells, off, x, n) && n + PAGE <= SECTOR && |cells| == CHIP
      requires page == x[n..n + PAGE] && blkOffset == off + n && blkOffset % PAGE == 0
      modifies this`blkOffset, nor
      ensures Rewriting(nor.cells, cells, off, x, n + PAGE) && blkOffset == off + n + PAGE
    {
      NextPage(nor.cells, cells, off, x, n, page);
      nor.WriteEnable();
      nor.PageProgram(blkOffset, page);
      blkOffset := blkOffset + PAGE;
    }

    /** Brings the sector of address `p` into a new buffer. */
    method LoadSector(p: Word)
      requires Valid() && writebuf == null && p < CHIP
      modifies this`writebuf, this`blkOffset, this`blkEnd
      ensures Valid() && writebuf != null && fresh(writebuf) && View() == old(View())
      ensures blkOffset == SectorStart(p)
    {
      var b := new Byte[SECTOR];
      SectorMasks(p);
      blkOffset := And(p, 0xFFFF_F000);
      blkEnd := blkOffset + SECTOR;
      var x := nor.MemCpy(blkOffset, SECTOR);
      forall i | 0 <= i < SECTOR { b[i] := x[i]; }
      writebuf := b;
      assert writebuf[..] == x;
      OverwriteSame(nor.cells, blkOffset, SECTOR);
    }

    /** Writes the buffer out if there is one. */
    method Sync()
      requires Valid()
      modifies this`writebuf, this`blkOffset, nor
      ensures Valid() && View() == old(View()) == nor.cells && writebuf == null
    {
      if writebuf != null { WriteBuffer(); }
    }

    // ---------------------------------------------------------------- read, write, seek, close

    /** The bytes from the handle's position on, as last written. */
    method Read(fd: int, count: nat) returns (rc: int, x: seq<Byte>)
      requires Valid() && InChip(fdList[..], fd, count)
      modifies this`writebuf, this`blkOffset, nor, fdList
      ensures Valid() && View() == old(View()) && (writebuf == null || writebuf == old(writebuf))
      ensures var t := old(fdList[..]);
        var i := Slot(t, fd);
        if i < 0 then rc == -EIO && x == [] && fdList[..] == t
        else rc == count == |x| && x == View()[t[i].fileptr..t[i].fileptr + count]
             && fdList[..] == t[i := OpenFd(fd, t[i].fileptr + count)]
    {
      var i := GetFd(fd);
      if i < 0 { return -EIO, []; }
      if writebuf != null { WriteBuffer(); }
      x := nor.MemCpy(fdList[i].fileptr, count);
      fdList[i] := OpenFd(fd, fdList[i].fileptr + count);
      rc := count;
    }

    /** Makes the buffer hold the sector of address `p`, unless all of p .. endAddr-1 is in it already. */
    method EnsureBlock(p: Word, endAddr: Word)
      requires Valid() && p <= endAddr && p < CHIP
      modifies this, nor
      ensures Valid() && View() == old(View()) && writebuf != null && (writebuf == old(writebuf) || fresh(writebuf))
      ensures blkOffset <= p && (p < blkEnd || endAddr == blkEnd)
    {
      if writebuf == null {
        LoadSector(p);
      } else if endAddr > blkEnd || p < blkOffset {
        WriteBuffer();
        LoadSector(p);
      }
    }

    method CopyIntoBlock(k: nat, x: seq<Byte>)
      requires Valid() && writebuf != null && k + |x| <= SECTOR
      modifies writebuf
      ensures Valid() && View() == Overwrite(old(View()), blkOffset + k, x)
    {
      ghost var was := writebuf[..];
      forall i | 0 <= i < |x| { writebuf[k + i] := x[i]; }
      assert writebuf[..] == Overwrite(was, k, x);
      OverwriteInside(nor.cells, blkOffset, was, k, x);
    }

    /** Puts as much of `x` as fits into the sector of address `p`; a full sector goes to the chip. */
    method WriteToSector(p: Word, x: seq<Byte>) returns (n: nat)
      requires Valid() && p + |x| <= CHIP && p < CHIP
      modifies this, nor, writebuf
      ensures Valid() && (writebuf == null || writebuf == old(writebuf) || fresh(writebuf))
      ensures n <= |x| && (|x| > 0 ==> n > 0) && View() == Overwrite(old(View()), p, x[..n])
    {
      var endAddr := |x| + p;
      EnsureBlock(p, endAddr);
      var inBlk := And(p, 0x0000_0FFF);
      BlockOffset(p, blkOffset);
      n := |x|;
      if endAddr > blkEnd { n := blkEnd - p; }
      PutInBlock(p, inBlk, x[..n]);
      if endAddr >= blkEnd { WriteBuffer(); }
    }

    method PutInBlock(p: Word, inBlk: nat, x: seq<Byte>)
      requires Valid() && writebuf != null && p + |x| <= CHIP
      requires |x| > 0 ==> inBlk + |x| <= SECTOR && p == blkOffset + inBlk
      modifies writebuf
      ensures Valid() && View() == Overwrite(old(View()), p, x)
    {
      if |x| > 0 { CopyIntoBlock(inBlk, x); } else { OverwriteNothing(View(), p); }
    }

    /** Every byte of `x` lands in the array from the handle's position on. */
    method Write(fd: int, x: seq<Byte>) returns (rc: int)
      requires Valid() && InChip(fdList[..], fd, if |x| == 0 then 1 else |x|)
      modifies this, nor, writebuf, fdList
      ensures Valid() && (writebuf == null || writebuf == old(writebuf) || fresh(writebuf))
      ensures var t := old(fdList[..]);
        var i := Slot(t, fd);
        if i < 0 then rc == -EIO && fdList[..] == t && View() == old(View())
        else rc == |x| && View() == Overwrite(old(View()), t[i].fileptr, x)
             && fdList[..] == t[i := OpenFd(fd, t[i].fileptr + |x|)]
    {
      var i := GetFd(fd);
      if i < 0 { return -EIO; }
      OverwriteNothing(View(), fdList[i].fileptr);
      assert x[..0] == [];
      WriteFrom(i, x, fdList[..], View());
      assert x[..|x|] == x;
      rc := |x|;
    }

    /** The write loop of entry `i`, which starts from table `t` and array `v`. */
    method WriteFrom(i: nat, x: seq<Byte>, ghost t: seq<OpenFd>, ghost v: seq<Byte>)
      requires Sent(i, x, 0, t, v) && t[i].fileptr < CHIP
      modifies this, nor, writebuf, fdList
      ensures Sent(i, x, |x|, t, v) && (writebuf == null || writebuf == old(writebuf) || fresh(writebuf))
    {
      var sent := WriteRound(i, x, 0, t, v);
      while sent < |x|
        invariant (writebuf == null || writebuf == old(writebuf) || fresh(writebuf))
        invariant Sent(i, x, sent, t, v)
        decreases |x| - sent
      {
        var n := WriteRound(i, x, sent, t, v);
        sent := sent + n;
      }
    }

    /** The first `sent` bytes of `x` are written. */
    ghost predicate Sent(i: nat, x: seq<Byte>, sent: nat, t: seq<OpenFd>, v: seq<Byte>)
      reads this, nor, writebuf, fdList
    {
      && Valid() && |t| == MAX_FLASH_FDS && i < |t| && |v| == CHIP && sent <= |x| && t[i].fileptr + |x| <= CHIP
      && View() == Overwrite(v, t[i].fileptr, x[..sent])
      && fdList[..] == t[i := OpenFd(t[i].fd, t[i].fileptr + sent)]
    }

    /** One round: at least one byte unless there is none. */
    method WriteRound(i: nat, x: seq<Byte>, sent: nat, ghost t: seq<OpenFd>, ghost v: seq<Byte>) returns (n: nat)
      requires Sent(i, x, sent, t, v) && t[i].fileptr + sent < CHIP
      modifies this, nor, writebuf, fdList
      ensures sent + n <= |x| && Sent(i, x, sent + n, t, v) && (sent < |x| ==> n > 0)
      ensures writebuf == null || writebuf == old(writebuf) || fresh(writebuf)
    {
      assert fdList[..][i] == fdList[i];
      n := WriteToSector(fdList[i].fileptr, x[sent..]);
      OverwriteTwice(v, t[i].fileptr, x[..sent], x[sent..][..n]);
      assert x[..sent] + x[sent..][..n] == x[..sent + n];
      Advance(i, n);
    }

    method Advance(i: nat, n: nat)
      requires i < fdList.Length && fdList[i].fileptr + n < 0x1_0000_0000
      modifies fdList
      ensures fdList[..] == old(fdList[..])[i := OpenFd(old(fdList[i].fd), old(fdList[i].fileptr) + n)]
    {
      fdList[i] := OpenFd(fdList[i].fd, fdList[i].fileptr + n);
    }

    /** Moves the position, on 32 bits: to the offset, that much on from here, or on from 16777215, which is taken
        for the size of the chip. Nothing is read or written. */
    method Lseek(fd: int, offset: int, whence: Whence) returns (rc: int)
      requires Valid() && -0x8000_0000 <= offset < 0x1_0000_0000
      modifies fdList
      ensures Valid() && View() == old(View())
      ensures var t := old(fdList[..]);
        var i := Slot(t, fd);
        if i < 0 then rc == -EIO && fdList[..] == t
        else if whence == OtherWhence then rc == -EINVAL && fdList[..] == t
        else
          && rc == (if whence == SeekSet then offset
                    else if whence == SeekCur then t[i].fileptr + offset
                    else 16777215 + offset) % 4294967296
          && fdList[..] == t[i := OpenFd(fd, rc)]
    {
      var i := GetFd(fd);
      if i < 0 { return -EIO; }
      var p := fdList[i].fileptr;
      match whence {
        case SeekSet => p := Wrap32(offset);
        case SeekCur => p := Wrap32(p + offset);
        case SeekEnd => p := Wrap32(0xFF_FFFF + offset);
        case OtherWhence => return -EINVAL;
      }
      fdList[i] := OpenFd(fd, p);
      rc := p;
    }

    /** Writes the buffer out and frees the handle. */
    method Close(fd: int) returns (rc: int)
      requires Valid()
      modifies this`writebuf, this`blkOffset, nor, fdList
      ensures Valid() && View() == old(View()) && (writebuf == null || writebuf == old(writebuf))
      ensures var t := old(fdList[..]);
        var i := Slot(t, fd);
        if i < 0 then rc == -EIO && fdList[..] == t
        else rc == 0 && writebuf == null && nor.cells == View() && fdList[..] == t[i := OpenFd(0, t[i].fileptr)]
    {
      var i := GetFd(fd);
      if i < 0 { return -EIO; }
      if writebuf != null { WriteBuffer(); }
      fdList[i] := OpenFd(0, fdList[i].fileptr);
      rc := 0;
    }
  }

  /** The next `n` bytes of the handle are inside the chip; the driver does not check this. */
  predicate InChip(t: seq<OpenFd>, fd: int, n: nat) {
    Slot(t, fd) >= 0 ==> t[Slot(t, fd)].fileptr + n <= CHIP
  }

  lemma BlockOffset(p: Word, off: Word)
    requires off % SECTOR == 0 && off <= p
    ensures p < off + SECTOR ==> And(p, 0x0000_0FFF) == p - off
    ensures And(p, 0x0000_0FFF) < SECTOR
  {
    SectorMasks(p);
  }

  // ---------------------------------------------------------------- the sector disc

  const FS_START := 0x40000
  const SECTOR_SIZE := 512
  const SECTOR_COUNT := 512

  datatype DResult = ResOk | ResNotRdy

  /** A disc of 512-byte sectors in the flash from FS_START on. */
  class FlashDisc {
    const dev: FlashDevice
    const flashFd: int

    constructor (d: FlashDevice, fd: int)
      ensures dev == d && flashFd == fd
    {
      dev, flashFd := d, fd;
    }

    ghost predicate Valid()
      reads this, dev, dev.nor, dev.writebuf, dev.fdList
    {
      dev.Valid() && (flashFd >= 0 ==> flashFd > 0 && Slot(dev.fdList[..], flashFd) >= 0)
    }

    /** Byte range of the disc. */
    ghost function Image(): (v: seq<Byte>)
      requires Valid()
      reads this, dev, dev.nor, dev.writebuf, dev.fdList
      ensures |v| == SECTOR_SIZE * SECTOR_COUNT
    {
      dev.View()[FS_START..FS_START + SECTOR_SIZE * SECTOR_COUNT]
    }

    /** Puts the handle on the first byte of `sector`. */
    method SeekSector(sector: nat)
      requires Valid() && sector <= SECTOR_COUNT && flashFd >= 0
      modifies dev.fdList
      ensures Valid() && dev.View() == old(dev.View())
      ensures dev.fdList[Slot(dev.fdList[..], flashFd)].fileptr == FS_START + sector * SECTOR_SIZE
    {
      SameSlot(dev.fdList[..], flashFd, FS_START + sector * SECTOR_SIZE);
      var rc := dev.Lseek(flashFd, FS_START + sector * SECTOR_SIZE, SeekSet);
    }

    method ReadSectors(sector: nat, count: nat) returns (res: DResult, x: seq<Byte>)
      requires Valid() && sector + count <= SECTOR_COUNT
      modifies dev`writebuf, dev`blkOffset, dev.nor, dev.fdList
      ensures Valid() && Image() == old(Image())
      ensures flashFd < 0 ==> res == ResNotRdy && x == []
      ensures flashFd >= 0 ==>
        res == ResOk && x == Image()[SECTOR_SIZE * sector..SECTOR_SIZE * (sector + count)]
        && x == dev.View()[262144 + 512 * sector..262144 + 512 * (sector + count)]
    {
      if flashFd < 0 { return ResNotRdy, []; }
      SeekSector(sector);
      x := ReadHere(sector, count);
      res := ResOk;
    }

    /** Reads from the position the handle is at. */
    method ReadHere(sector: nat, count: nat) returns (x: seq<Byte>)
      requires Valid() && sector + count <= SECTOR_COUNT && flashFd >= 0
      requires dev.fdList[Slot(dev.fdList[..], flashFd)].fileptr == FS_START + sector * SECTOR_SIZE
      modifies dev`writebuf, dev`blkOffset, dev.nor, dev.fdList
      ensures Valid() && dev.View() == old(dev.View())
      ensures x == Image()[SECTOR_SIZE * sector..SECTOR_SIZE * (sector + count)]
    {
      SameSlot(dev.fdList[..], flashFd, FS_START + (sector + count) * SECTOR_SIZE);
      var rc;
      rc, x := dev.Read(flashFd, count * SECTOR_SIZE);
    }

    method WriteSectors(sector: nat, x: seq<Byte>, count: nat) returns (res: DResult)
      requires Valid() && sector + count <= SECTOR_COUNT && |x| == SECTOR_SIZE * count
      modifies dev, dev.nor, dev.writebuf, dev.fdList
      ensures Valid()
      ensures flashFd < 0 ==> res == ResNotRdy && Image() == old(Image())
      ensures flashFd >= 0 ==> res == ResOk && Image() == Overwrite(old(Image()), SECTOR_SIZE * sector, x)
      ensures flashFd >= 0 ==> dev.View() == Overwrite(old(dev.View()), 262144 + 512 * sector, x)
    {
      if flashFd < 0 { return ResNotRdy; }
      ghost var v := dev.View();
      SeekSector(sector);
      SameSlot(dev.fdList[..], flashFd, FS_START + (sector + count) * SECTOR_SIZE);
      var rc := dev.Write(flashFd, x);
      OverwriteImage(v, sector, x);
      res := ResOk;
    }

    /** `intflash_sync`: afterwards the chip alone holds the disc. */
    method SyncDisc() returns (res: DResult)
      requires Valid()
      modifies dev`writebuf, dev`blkOffset, dev.nor
      ensures Valid() && Image() == old(Image()) && res == ResOk
      ensures dev.nor.cells[FS_START..FS_START + SECTOR_SIZE * SECTOR_COUNT] == Image()
    {
      dev.Sync();
      res := ResOk;
    }
  }

  /** Moving a handle's position does not change which entry is its own. */
  lemma {:induction false} SameSlot(t: seq<OpenFd>, fd: int, p: Word)
    requires Slot(t, fd) >= 0
    ensures Slot(t[Slot(t, fd) := OpenFd(fd, p)], fd) == Slot(t, fd)
  {
    if t[0].fd != fd {
      var k := Slot(t[1..], fd);
      SameSlot(t[1..], fd, p);
      assert t[Slot(t, fd) := OpenFd(fd, p)][1..] == t[1..][k := OpenFd(fd, p)];
    }
  }

  lemma PageStart(off: nat, i: nat)
    requires off % SECTOR == 0
    ensures (off + PAGE * i) % PAGE == 0 && PAGE * i + PAGE == PAGE * (i + 1)
  {
    assert off == SECTOR * (off / SECTOR);
    MultipleUnique(off + PAGE * i, PAGE, 16 * (off / SECTOR) + i, 0);
  }

  lemma OverwriteImage(v: seq<Byte>, sector: nat, x: seq<Byte>)
    requires |v| == CHIP && SECTOR_SIZE * sector + |x| <= SECTOR_SIZE * SECTOR_COUNT
    ensures var n := SECTOR_SIZE * SECTOR_COUNT;
      Overwrite(v, FS_START + SECTOR_SIZE * sector, x)[FS_START..FS_START + n]
      == Overwrite(v[FS_START..FS_START + n], SECTOR_SIZE * sector, x)
  {
    var n, at := SECTOR_SIZE * SECTOR_COUNT, SECTOR_SIZE * sector;
    var left := Overwrite(v, FS_START + at, x)[FS_START..FS_START + n];
    var right := Overwrite(v[FS_START..FS_START + n], at, x);
    forall k | 0 <= k < n ensures left[k] == right[k] {
      OverwriteAt(v, FS_START + at, x, FS_START + k);
      OverwriteAt(v[FS_START..FS_START + n], at, x, k);
    }
    assert |left| == |right| == n;
  }
}
