/** Mounting a volume (system/ff.c, mount_volume): the geometry read off the boot sector. */
module FatMount {
  import opened Bits
  import opened FatDisk
  import opened FatVolume
  import opened FatSteps
  import opened FatEntries

  const MAX_FAT12 := 0xFF5
  const MAX_FAT16 := 0xFFF5
  const MAX_FAT32 := 0x0FFF_FFF5

  /** The fields of a boot sector that decide the geometry. */
  datatype Bpb = Bpb(
    bytsPerSec: nat, secPerClus: Byte, rsvdSecCnt: nat, numFats: Byte, rootEntCnt: nat,
    totSec16: nat, fatSz16: nat, totSec32: Word, fatSz32: Word, fsVer32: nat, fsInfo32: nat)

  function WordAt(x: Sector, k: nat): (w: nat)
    requires k + 2 <= 512
    ensures w < 0x1_0000
  {
    Word16(x[k], x[k + 1])
  }

  function LoadBpb(x: Sector): (b: Bpb) {
    Bpb(WordAt(x, 11), x[13], WordAt(x, 14), x[16], WordAt(x, 17),
        WordAt(x, 19), WordAt(x, 22), LoadAt(x, 32), LoadAt(x, 36), WordAt(x, 42), WordAt(x, 48))
  }

  predicate BpbRange(b: Bpb) {
    b.bytsPerSec < 0x1_0000 && b.rsvdSecCnt < 0x1_0000 && b.rootEntCnt < 0x1_0000
    && b.totSec16 < 0x1_0000 && b.fatSz16 < 0x1_0000 && b.fsVer32 < 0x1_0000 && b.fsInfo32 < 0x1_0000
  }

  datatype Mounted = NoFilesystem | Mounted(g: Geometry)

  function FatSize(b: Bpb): (n: nat) { if b.fatSz16 == 0 then b.fatSz32 else b.fatSz16 }
  function TotalSectors(b: Bpb): (n: nat) { if b.totSec16 == 0 then b.totSec32 else b.totSec16 }

  /** Sectors before the data area, on 32 bits. */
  function SystemSectors(b: Bpb): (n: nat) {
    Wrap32(b.rsvdSecCnt + Wrap32(FatSize(b) * b.numFats) + b.rootEntCnt / 16)
  }

  /** The FAT type is decided by the number of clusters alone. */
  function TypeFor(nclst: nat): (t: FsType) {
    if nclst <= MAX_FAT12 then Fat12 else if nclst <= MAX_FAT16 then Fat16 else Fat32
  }

  /** Bytes the FAT must have. */
  function TableBytes(t: FsType, n: nat): (r: nat) {
    match t
    case Fat12 => n * 3 / 2 + n % 2
    case Fat16 => n * 2
    case Fat32 => n * 4
  }

  /** What `mount_volume` makes of the boot sector at `bsect`, in the order of its tests. */
  function MountFields(b: Bpb, bsect: nat): (r: Mounted) {
    var fsize := FatSize(b);
    var csize := b.secPerClus;
    if b.bytsPerSec != SS then NoFilesystem
    else if b.numFats != 1 && b.numFats != 2 then NoFilesystem
    else if csize == 0 || And(csize, csize - 1) != 0 then NoFilesystem
    else if b.rootEntCnt % 16 != 0 then NoFilesystem
    else if b.rsvdSecCnt == 0 then NoFilesystem
    else
      var tsect, sysect := TotalSectors(b), SystemSectors(b);
      if tsect < sysect then NoFilesystem
      else
        var nclst := Quot(tsect - sysect, csize);
        if nclst == 0 || nclst > MAX_FAT32 then NoFilesystem
        else
          var t := TypeFor(nclst);
          if t == Fat32 && (b.fsVer32 != 0 || b.rootEntCnt != 0) then NoFilesystem
          else if t != Fat32 && b.rootEntCnt == 0 then NoFilesystem
          else if fsize < (TableBytes(t, nclst + 2) + (SS - 1)) / SS then NoFilesystem
          else Mounted(Geometry(t, b.numFats, csize, fsize, bsect, Wrap32(bsect + b.rsvdSecCnt),
                                Wrap32(bsect + sysect), nclst + 2))
  }

  // ---------------------------------------------------------------- the boot sector in bytes

  /** Sectors in front of the clusters, by the bytes of the boot sector. */
  function SystemOf(x: Sector): (n: nat) {
    (Number(x[14..16]) + FatSizeOf(x) * x[16] + Number(x[17..19]) / 16) % 0x1_0000_0000
  }

  function FatSizeOf(x: Sector): (n: nat) {
    if Number(x[22..24]) != 0 then Number(x[22..24]) else Number(x[36..40])
  }

  function TotalOf(x: Sector): (n: nat) {
    if Number(x[19..21]) != 0 then Number(x[19..21]) else Number(x[32..36])
  }

  /** Boot sector `x` at sector `bsect` is that of a volume with geometry `g`: 512 bytes to a sector, one or two
      FATs, clusters of 1, 2, 4 .. 128 sectors and as many as there is room for, the type their number stands
      for, and a FAT that has an entry for each and two more. */
  predicate Boot(x: Sector, bsect: nat, g: Geometry) {
    BootWith(x, bsect, g, SystemOf(x), TotalOf(x), FatSizeOf(x))
  }

  predicate BootWith(x: Sector, bsect: nat, g: Geometry, sys: nat, tot: nat, fat: nat) {
    var n := g.nFatent - 2;
    && Number(x[11..13]) == 512 && g.nFats == x[16] && (x[16] == 1 || x[16] == 2)
    && g.csize == x[13] && SmallPower(x[13]) && Number(x[17..19]) % 16 == 0 && Number(x[14..16]) != 0
    && 1 <= n <= 0x0FFF_FFF5 && Holds(tot - sys, g.csize, n)
    && g.fsType == (if n <= 4085 then Fat12 else if n <= 65525 then Fat16 else Fat32)
    && (g.fsType == Fat32 ==> Number(x[42..44]) == 0 && Number(x[17..19]) == 0)
    && (g.fsType != Fat32 ==> Number(x[17..19]) != 0)
    && g.fsize == fat && EntriesFit(g.fsType, n + 2, g.fsize)
    && g.volbase == bsect && g.fatbase == (bsect + Number(x[14..16])) % 0x1_0000_0000
    && g.database == (bsect + sys) % 0x1_0000_0000
  }

  /** 1, 2, 4 .. 128. */
  predicate SmallPower(c: nat) {
    exists k :: 0 <= k < 8 && c == Pow2(k)
  }

  /** `n` clusters of `c` sectors have room in `rest` sectors, and no more. */
  predicate Holds(rest: int, c: nat, n: nat) {
    c * n <= rest < c * n + c
  }

  /** `n` entries of 12, 16 or 32 bits have room in `f` sectors. */
  predicate EntriesFit(t: FsType, n: nat, f: nat) {
    (match t case Fat12 => 12 case Fat16 => 16 case Fat32 => 32) * n <= 8 * 512 * f
  }

  lemma Two(x: Sector, k: nat)
    requires k + 2 <= 512
    ensures WordAt(x, k) == Number(x[k..k + 2])
  {
    LittleEndian(x[k], x[k + 1], 0, 0);
    assert x[k..k + 2] == [x[k], x[k + 1]];
  }

  lemma Four(x: Sector, k: nat)
    requires k + 4 <= 512
    ensures LoadAt(x, k) == Number(x[k..k + 4])
  {
    LittleEndian(x[k], x[k + 1], x[k + 2], x[k + 3]);
    assert x[k..k + 4] == [x[k], x[k + 1], x[k + 2], x[k + 3]];
  }

  /** Which bytes the fields are. */
  lemma BpbFields(x: Sector)
    ensures var b := LoadBpb(x);
      && b.bytsPerSec == Number(x[11..13]) && b.secPerClus == x[13] && b.rsvdSecCnt == Number(x[14..16])
      && b.numFats == x[16] && b.rootEntCnt == Number(x[17..19]) && FatSize(b) == FatSizeOf(x)
      && TotalSectors(b) == TotalOf(x) && b.fsVer32 == Number(x[42..44]) && b.fsInfo32 == Number(x[48..50])
  {
    Two(x, 11); Two(x, 14); Two(x, 17); Two(x, 19); Two(x, 22); Two(x, 42); Two(x, 48);
    Four(x, 32); Four(x, 36);
  }

  lemma SystemIs(x: Sector)
    ensures SystemSectors(LoadBpb(x)) == SystemOf(x)
  {
    BpbFields(x);
    SystemFrom(LoadBpb(x), FatSizeOf(x), x[16]);
  }

  lemma SystemFrom(b: Bpb, size: nat, fats: nat)
    requires FatSize(b) == size && b.numFats == fats
    ensures SystemSectors(b) == (b.rsvdSecCnt + size * fats + b.rootEntCnt / 16) % 0x1_0000_0000
  {
    WrapInside(b.rsvdSecCnt, size * fats, b.rootEntCnt / 16);
  }

  lemma WrapInside(p: nat, q: nat, r: nat)
    ensures Wrap32(p + Wrap32(q) + r) == (p + q + r) % 0x1_0000_0000
  {
    var k, m := q / 0x1_0000_0000, p + Wrap32(q) + r;
    MultipleUnique(p + q + r, 0x1_0000_0000, k + m / 0x1_0000_0000, m % 0x1_0000_0000);
  }

  /** The sizes a cluster may have. */
  lemma PowerSizes(c: Byte)
    ensures c != 0 && And(c, c - 1) == 0 <==> SmallPower(c)
  {
    if c != 0 && And(c, c - 1) == 0 {
      CsizeOk(c);
      var k := ClusterPower(c);
      assert 0 <= k < 8;
    }
    if SmallPower(c) {
      var k: nat :| 0 <= k < 8 && c == Pow2(k);
      AndRem(c, k);
      RemSelf(c);
    }
  }

  lemma RemSelf(c: nat)
    requires c > 0
    ensures Rem(c, c) == 0
  {}

  lemma QuotIs(rest: nat, c: nat, n: nat)
    requires c > 0
    ensures Quot(rest, c) == n <==> c * n <= rest < c * n + c
  {
    var q := Quot(rest, c);
    QuotTimes(rest, c);
    RemBelow(rest, c);
    assert c * q == q * c;
    if n < q { Multiples(c, n, q); } else if n > q { Multiples(c, q, n); }
  }

  lemma Multiples(c: nat, m: nat, n: nat)
    requires m < n
    ensures c * m + c <= c * n
  {
    var k: nat := n - m - 1;
    assert c * n == c * (m + 1 + k) == c * m + c + c * k;
  }

  lemma RoomForTable(t: FsType, n: nat, f: nat)
    ensures f >= (TableBytes(t, n) + (SS - 1)) / SS <==> EntriesFit(t, n, f)
  {
    CeilIs(TableBytes(t, n), f);
    HalfUp(n);
  }

  lemma CeilIs(bytes: nat, f: nat)
    ensures f >= (bytes + (SS - 1)) / SS <==> bytes <= 512 * f
  {}

  lemma HalfUp(n: nat)
    ensures 2 * (n * 3 / 2 + n % 2) == 3 * n + n % 2
  {
    var h, e := n / 2, n % 2;
    MultipleUnique(n * 3, 2, 3 * h + e, e);
  }

  /** A boot sector is accepted, with geometry `g`, exactly if it is that of such a volume. */
  lemma MountsExactly(x: Sector, bsect: nat, g: Geometry)
    ensures MountFields(LoadBpb(x), bsect) == Mounted(g) <==> Boot(x, bsect, g)
  {
    BpbFields(x);
    SystemIs(x);
    PowerSizes(x[13]);
    TestsPassed(LoadBpb(x), bsect, g);
    MountTests(x, LoadBpb(x), bsect, g, SystemOf(x), TotalOf(x), FatSizeOf(x));
  }

  /** All tests are passed, and what they leave. */
  predicate Passes(b: Bpb, bsect: nat, g: Geometry) {
    && b.bytsPerSec == SS && (b.numFats == 1 || b.numFats == 2) && b.rootEntCnt % 16 == 0 && b.rsvdSecCnt != 0
    && b.secPerClus != 0 && And(b.secPerClus, b.secPerClus - 1) == 0
    && TotalSectors(b) >= SystemSectors(b) && 1 <= g.nFatent - 2 <= MAX_FAT32
    && g.nFatent - 2 == Quot(TotalSectors(b) - SystemSectors(b), b.secPerClus)
    && g.fsType == TypeFor(g.nFatent - 2)
    && (g.fsType == Fat32 ==> b.fsVer32 == 0 && b.rootEntCnt == 0) && (g.fsType != Fat32 ==> b.rootEntCnt != 0)
    && FatSize(b) >= (TableBytes(g.fsType, g.nFatent) + (SS - 1)) / SS
    && g == Geometry(g.fsType, b.numFats, b.secPerClus, FatSize(b), bsect, Wrap32(bsect + b.rsvdSecCnt),
                     Wrap32(bsect + SystemSectors(b)), g.nFatent)
  }

  lemma TestsPassed(b: Bpb, bsect: nat, g: Geometry)
    ensures MountFields(b, bsect) == Mounted(g) <==> Passes(b, bsect, g)
  {}

  lemma MountTests(x: Sector, b: Bpb, bsect: nat, g: Geometry, sys: nat, tot: nat, fat: nat)
    requires b.bytsPerSec == Number(x[11..13]) && b.secPerClus == x[13] && b.rsvdSecCnt == Number(x[14..16])
    requires b.numFats == x[16] && b.rootEntCnt == Number(x[17..19]) && FatSize(b) == fat
    requires TotalSectors(b) == tot && b.fsVer32 == Number(x[42..44]) && SystemSectors(b) == sys
    requires x[13] != 0 && And(x[13], x[13] - 1) == 0 <==> SmallPower(x[13])
    ensures Passes(b, bsect, g) <==> BootWith(x, bsect, g, sys, tot, fat)
  {
    RoomForTable(g.fsType, g.nFatent, FatSize(b));
    if x[13] == 0 { assert !SmallPower(0); } else if g.nFatent >= 2 { CountTests(tot, sys, x[13], g.nFatent - 2); }
  }

  lemma CountTests(tot: nat, sys: nat, c: nat, n: nat)
    requires c > 0
    ensures tot >= sys && n == Quot(tot - sys, c) <==> Holds(tot - sys, c, n)
  {
    if tot >= sys { QuotIs(tot - sys, c, n); }
  }

  // ---------------------------------------------------------------- when the geometry is sound

  /** The sizes of the FAT area and of the whole system area fit 32 bits. */
  predicate SumsFit(b: Bpb) {
    && FatSize(b) * b.numFats < 0x1_0000_0000
    && b.rsvdSecCnt + FatSize(b) * b.numFats + b.rootEntCnt / 16 < 0x1_0000_0000
  }

  /** The last cluster ends inside a disc of `n` sectors. */
  predicate ClustersInside(b: Bpb, bsect: nat, n: nat)
    requires MountFields(b, bsect).Mounted?
  {
    var g := MountFields(b, bsect).g;
    bsect + SystemSectors(b) + g.csize * (g.nFatent - 2) <= n <= 0x1_0000_0000
  }

  lemma CeilSectors(bytes: nat, f: nat)
    requires f >= (bytes + (SS - 1)) / SS
    ensures bytes <= SS * f && (bytes > 0 ==> f >= 1)
  {}

  lemma HalfAgain(n: nat, f: nat)
    requires n * 3 / 2 + n % 2 <= 512 * f
    ensures 3 * n <= 2 * 512 * f
  {
    var h := n / 2;
    assert n == 2 * h + n % 2;
  }

  lemma BytesToRoom(t: FsType, n: nat, f: nat)
    requires f >= (TableBytes(t, n) + (SS - 1)) / SS
    ensures Room(t, n, f) && (n > 0 ==> f >= 1)
  {
    CeilSectors(TableBytes(t, n), f);
    if t == Fat12 { HalfAgain(n, f); }
  }

  lemma TypeHolds(nclst: nat)
    requires 1 <= nclst <= MAX_FAT32
    ensures 3 <= nclst + 2 <= MaxEntries(TypeFor(nclst))
  {}

  lemma CsizeOk(csize: Byte)
    requires csize != 0 && And(csize, csize - 1) == 0
    ensures ClusterSize(csize)
  {
    var k := PowerOf(csize);
    assert Pow2(8) == 256;
    if k >= 8 { if k > 8 { Pow2Mono(8, k); } }
  }

  /** An accepted boot sector gives a sound geometry - reserved sectors, FATs, root directory and clusters
      follow each other inside the disc, and the FAT has room for all its entries - if and only if its sums
      do not wrap and its last cluster is on the disc. */
  lemma AcceptedIsSound(b: Bpb, bsect: nat, n: nat)
    requires BpbRange(b) && MountFields(b, bsect).Mounted?
    ensures GeometryOk(MountFields(b, bsect).g, n) <==> SumsFit(b) && ClustersInside(b, bsect, n)
  {
    var g := MountFields(b, bsect).g;
    CsizeOk(b.secPerClus);
    TypeHolds(Quot(TotalSectors(b) - SystemSectors(b), g.csize));
    BytesToRoom(g.fsType, g.nFatent, g.fsize);
    BaseLinear(g, g.nFatent);
    if GeometryOk(g, n) { SoundSums(b, bsect, n); }
    if SumsFit(b) && ClustersInside(b, bsect, n) { SumsInOrder(b, bsect, n); }
  }

  lemma FatArea(b: Bpb)
    requires b.numFats == 1 || b.numFats == 2
    ensures FatSize(b) * b.numFats == FatSize(b) + (if b.numFats == 2 then FatSize(b) else 0)
  {}

  /** What passing all tests comes to, as far as the order of the areas goes. */
  lemma AcceptedFields(b: Bpb, bsect: nat)
    requires MountFields(b, bsect).Mounted?
    ensures var g := MountFields(b, bsect).g;
      && (g.nFats == b.numFats == 1 || g.nFats == b.numFats == 2) && g.fsize == FatSize(b) && b.rsvdSecCnt > 0
      && g.csize > 0 && g.nFatent >= 3 && g.volbase == bsect && g.fatbase == Wrap32(bsect + b.rsvdSecCnt)
      && g.database == Wrap32(bsect + SystemSectors(b)) && g.csize * (g.nFatent - 2) > 0
  {
    SomeClusters(MountFields(b, bsect).g);
  }

  lemma SomeClusters(g: Geometry)
    ensures g.nFatent >= 3 && g.csize > 0 ==> g.csize * (g.nFatent - 2) > 0
  {}

  /** Where nothing wraps the areas are in order. */
  lemma SumsInOrder(b: Bpb, bsect: nat, n: nat)
    requires MountFields(b, bsect).Mounted? && SumsFit(b) && ClustersInside(b, bsect, n)
    ensures var g := MountFields(b, bsect).g;
      && g.volbase < g.fatbase && g.database == bsect + SystemSectors(b)
      && g.fatbase + g.fsize + (if g.nFats == 2 then g.fsize else 0) <= g.database
  {
    AcceptedFields(b, bsect);
    FatArea(b);
    NothingWraps(bsect, b.rsvdSecCnt, FatSize(b) * b.numFats, b.rootEntCnt / 16);
  }

  lemma NothingWraps(bsect: nat, nrsv: nat, area: nat, root: nat)
    requires area < 0x1_0000_0000 && nrsv + area + root < 0x1_0000_0000
    requires bsect + Wrap32(nrsv + Wrap32(area) + root) < 0x1_0000_0000
    ensures Wrap32(bsect + nrsv) == bsect + nrsv
    ensures Wrap32(bsect + Wrap32(nrsv + Wrap32(area) + root)) == bsect + nrsv + area + root
    ensures Wrap32(nrsv + Wrap32(area) + root) == nrsv + area + root
  {
    WrapOnce(area);
    WrapOnce(nrsv + area + root);
    WrapOnce(bsect + nrsv);
    WrapOnce(bsect + nrsv + area + root);
  }

  /** Where the areas are in order nothing wrapped. */
  lemma SoundSums(b: Bpb, bsect: nat, n: nat)
    requires BpbRange(b) && MountFields(b, bsect).Mounted? && GeometryOk(MountFields(b, bsect).g, n)
    ensures SumsFit(b) && MountFields(b, bsect).g.database == bsect + SystemSectors(b)
  {
    AcceptedFields(b, bsect);
    SoundGeometry(MountFields(b, bsect).g, b, bsect, n);
  }

  lemma SoundGeometry(g: Geometry, b: Bpb, bsect: nat, n: nat)
    requires BpbRange(b) && GeometryOk(g, n) && g.nFats == b.numFats && g.fsize == FatSize(b) && b.rsvdSecCnt > 0
    requires g.volbase == bsect && g.fatbase == Wrap32(bsect + b.rsvdSecCnt)
    requires g.database == Wrap32(bsect + SystemSectors(b))
    ensures SumsFit(b) && g.database == bsect + SystemSectors(b)
  {
    FatArea(b);
    BaseMono(g, 2, g.nFatent);
    NoneWrapped(bsect, b.rsvdSecCnt, FatSize(b) * b.numFats, b.rootEntCnt / 16);
  }

  /** The fixed root directory is between the FATs and the clusters. */
  lemma RootAreaOk(b: Bpb, bsect: nat, n: nat)
    requires BpbRange(b) && MountFields(b, bsect).Mounted? && SumsFit(b) && ClustersInside(b, bsect, n)
    ensures var g := MountFields(b, bsect).g;
      AreaOk(Area(g, [], g.fatbase + FatSize(b) * b.numFats, b.rootEntCnt), n)
  {
    AcceptedIsSound(b, bsect, n);
    AcceptedFields(b, bsect);
    SumsInOrder(b, bsect, n);
    FatbaseIs(b, bsect, n);
    FatArea(b);
    NothingWraps(bsect, b.rsvdSecCnt, FatSize(b) * b.numFats, b.rootEntCnt / 16);
  }

  lemma NoneWrapped(bsect: nat, nrsv: nat, area: nat, root: nat)
    requires bsect < 0x1_0000_0000 && 0 < nrsv < 0x1_0000 && root < 0x1_0000
    requires var sys := Wrap32(nrsv + Wrap32(area) + root);
      bsect < Wrap32(bsect + nrsv) && Wrap32(bsect + nrsv) + area <= Wrap32(bsect + sys) < 0x1_0000_0000
    ensures area < 0x1_0000_0000 && nrsv + area + root < 0x1_0000_0000
    ensures Wrap32(bsect + Wrap32(nrsv + Wrap32(area) + root)) == bsect + nrsv + area + root
  {
    WrapOnce(bsect + nrsv);
    assert area < 0x1_0000_0000;
    WrapOnce(nrsv + area + root);
    WrapOnce(bsect + Wrap32(nrsv + area + root));
  }

  lemma WrapOnce(x: nat)
    requires x < 0x2_0000_0000
    ensures Wrap32(x) == if x < 0x1_0000_0000 then x else x - 0x1_0000_0000
  {}

  /** Two FATs of 2^31 sectors add up to 0, and the volume is accepted with its data area inside its first FAT. */
  lemma WrappedIsAccepted()
    ensures var b := Bpb(512, 1, 1, 2, 16, 100, 0, 0, 0x8000_0000, 0, 0);
      && BpbRange(b) && MountFields(b, 0).Mounted? && !SumsFit(b)
      && forall n: nat :: !GeometryOk(MountFields(b, 0).g, n)
  {
    var b := Bpb(512, 1, 1, 2, 16, 100, 0, 0, 0x8000_0000, 0, 0);
    assert And(1, 0) == 0 by { AndBound(1, 0); }
    assert SystemSectors(b) == 2;
    QuotOne(98);
    assert Quot(98, 1) == 98;
  }

  lemma {:induction false} QuotOne(k: nat)
    ensures Quot(k, 1) == k
  {
    if k > 0 { QuotOne(k - 1); }
  }

  // ---------------------------------------------------------------- the mounted volume

  /** The FSInfo sector is usable: its signatures are there. */
  predicate HasInfo(x: Sector) {
    WordAt(x, 510) == 0xAA55 && LoadAt(x, 0) == 0x41615252 && LoadAt(x, 484) == 0x61417272
  }

  lemma InfoFields(x: Sector)
    ensures HasInfo(x) <==>
      Number(x[0..4]) == 0x41615252 && Number(x[484..488]) == 0x61417272 && Number(x[510..512]) == 0xAA55
    ensures LoadAt(x, 488) == Number(x[488..492]) && LoadAt(x, 492) == Number(x[492..496])
  {
    Two(x, 510); Four(x, 0); Four(x, 484); Four(x, 488); Four(x, 492);
  }

  lemma LoadedRange(x: Sector)
    ensures BpbRange(LoadBpb(x))
  {}

  /** Mounts the volume at sector `bsect` of a disc. Nothing is checked about what the model calls a sound
      geometry, nor that the two FATs agree, nor the free-cluster count that the FSInfo sector gives: the volume
      is in order exactly when they happen to be. */
  method Mount(d: Disc, bsect: nat) returns (v: Volume?, dirbase: nat, nRoot: nat)
    requires bsect < |d|
    ensures v == null ==> forall g :: !Boot(d[bsect], bsect, g)
    ensures v != null ==> Boot(d[bsect], bsect, v.g) && fresh(v) && fresh(v.win) && v.disk == d
    ensures v != null ==> nRoot == Number(d[bsect][17..19])
    ensures v != null && v.g.fsType == Fat32 ==> dirbase == Number(d[bsect][44..48])
    ensures v != null && v.g.fsType != Fat32 ==>
      dirbase == (v.g.fatbase + v.g.fsize * v.g.nFats) % 0x1_0000_0000
    ensures v != null ==> InfoLoaded(d, bsect, v)
    ensures v != null ==>
      && (v.Core() <==> SumsFit(LoadBpb(d[bsect])) && LastInside(v.g, bsect, SystemOf(d[bsect]), |d|)
                        && Mirrored(v.g, d))
      && (v.Core() ==> v.Disc() == d && (v.freeClst == 0xFFFF_FFFF ==> v.Counted()))
      && (v.Core() ==> (v.fsiFlag >= 0x80 || Number(d[bsect][14..16]) >= 2 <==> v.InfoApart()))
  {
    var b := LoadBpb(d[bsect]);
    var m := MountFields(b, bsect);
    v, dirbase, nRoot := null, 0, 0;
    MountOnly(d[bsect], bsect);
    if m.Mounted? {
      MountsExactly(d[bsect], bsect, m.g);
      Accepted(d, bsect);
      v := LoadVolume(d, bsect, m.g, b.fsInfo32);
      nRoot := b.rootEntCnt;
      dirbase := RootStart(d[bsect], m.g);
    }
  }

  /** Where the root directory starts: a cluster on FAT32, otherwise the sector behind the FATs. */
  method RootStart(x: Sector, g: Geometry) returns (dirbase: nat)
    ensures dirbase ==
      if g.fsType == Fat32 then Number(x[44..48]) else (g.fatbase + g.fsize * g.nFats) % 0x1_0000_0000
  {
    Four(x, 44);
    if g.fsType == Fat32 { return LoadAt(x, 44); }
    WrapInside(g.fatbase, g.fsize * g.nFats, 0);
    dirbase := Wrap32(g.fatbase + Wrap32(g.fsize * g.nFats));
  }

  lemma MountOnly(x: Sector, bsect: nat)
    ensures MountFields(LoadBpb(x), bsect).NoFilesystem? ==> forall g :: !Boot(x, bsect, g)
  {
    forall g ensures MountFields(LoadBpb(x), bsect).NoFilesystem? ==> !Boot(x, bsect, g) {
      MountsExactly(x, bsect, g);
    }
  }

  /** What mounting found in the FSInfo sector: the free count and the last cluster if there is such a sector and
      it carries the three signatures. */
  ghost predicate InfoLoaded(d: Disc, bsect: nat, v: Volume)
    requires bsect < |d|
    reads v
  {
    if v.g.fsType == Fat32 && Number(d[bsect][48..50]) == 1 && bsect + 1 < |d| then
      var x := d[bsect + 1];
      v.fsiFlag == 0
      && if Number(x[0..4]) == 0x41615252 && Number(x[484..488]) == 0x61417272 && Number(x[510..512]) == 0xAA55
         then v.freeClst == Number(x[488..492]) && v.lastClst == Number(x[492..496])
         else v.freeClst == 0xFFFF_FFFF && v.lastClst == 0xFFFF_FFFF
    else
      v.fsiFlag == 0x80 && v.freeClst == 0xFFFF_FFFF && v.lastClst == 0xFFFF_FFFF
  }

  /** The last cluster ends inside a disc of `n` sectors. */
  predicate LastInside(g: Geometry, bsect: nat, sys: nat, n: nat) {
    bsect + sys + g.csize * (g.nFatent - 2) <= n <= 0x1_0000_0000
  }

  /** What acceptance means for the volume. */
  lemma Accepted(d: Disc, bsect: nat)
    requires bsect < |d| && MountFields(LoadBpb(d[bsect]), bsect).Mounted?
    ensures var b, g := LoadBpb(d[bsect]), MountFields(LoadBpb(d[bsect]), bsect).g;
      && g.volbase == bsect && b.rsvdSecCnt == Number(d[bsect][14..16]) && b.rootEntCnt == Number(d[bsect][17..19])
      && b.fsInfo32 == Number(d[bsect][48..50])
      && (GeometryOk(g, |d|) <==> SumsFit(b) && LastInside(g, bsect, SystemOf(d[bsect]), |d|))
      && (GeometryOk(g, |d|) ==> g.fatbase == bsect + b.rsvdSecCnt)
  {
    var b, g := LoadBpb(d[bsect]), MountFields(LoadBpb(d[bsect]), bsect).g;
    BpbFields(d[bsect]);
    SystemIs(d[bsect]);
    LoadedRange(d[bsect]);
    AcceptedFields(b, bsect);
    AcceptedIsSound(b, bsect, |d|);
    if GeometryOk(g, |d|) { FatbaseIs(b, bsect, |d|); }
  }

  lemma FatbaseIs(b: Bpb, bsect: nat, n: nat)
    requires MountFields(b, bsect).Mounted? && SumsFit(b) && ClustersInside(b, bsect, n)
    ensures MountFields(b, bsect).g.fatbase == bsect + b.rsvdSecCnt
  {
    AcceptedFields(b, bsect);
    WrapOnce(bsect + b.rsvdSecCnt);
    NothingWraps(bsect, b.rsvdSecCnt, FatSize(b) * b.numFats, b.rootEntCnt / 16);
  }

  /** The filesystem object for the geometry found, and the FSInfo sector if there is to be one. */
  method LoadVolume(d: Disc, bsect: nat, g: Geometry, fsInfo: nat) returns (v: Volume)
    requires bsect < |d| && g.volbase == bsect
    ensures fresh(v) && fresh(v.win) && v.g == g && v.disk == d
    ensures fsInfo == Number(d[bsect][48..50]) ==> InfoLoaded(d, bsect, v)
    ensures v.Core() <==> GeometryOk(g, |d|) && Mirrored(g, d)
    ensures v.Core() ==> v.Disc() == d && (v.freeClst == 0xFFFF_FFFF ==> v.Counted())
  {
    var free: Word, last: Word, flag: Byte := 0xFFFF_FFFF, 0xFFFF_FFFF, 0x80;
    var sect, x := bsect, d[bsect];
    if GeometryOk(g, |d|) { NeverSecondFat(g, |d|, bsect); }
    if g.fsType == Fat32 && fsInfo == 1 {
      if bsect + 1 < |d| {
        sect, x, flag := bsect + 1, d[bsect + 1], 0;
        InfoFields(x);
        if HasInfo(x) { free, last := LoadAt(x, 488), LoadAt(x, 492); }
      } else {
        sect := 0xFFFF_FFFF;
      }
    }
    v := new Volume(g, d, sect, x, free, last, flag);
    if GeometryOk(g, |d|) { NoCountYet(g, d, free); }
  }

  lemma NeverSecondFat(g: Geometry, n: nat, bsect: nat)
    requires GeometryOk(g, n) && g.volbase == bsect
    ensures bsect + 1 < n && Windowed(g, bsect) && Windowed(g, bsect + 1)
  {
    BaseMono(g, 2, g.nFatent);
  }

  lemma NoCountYet(g: Geometry, d: Disc, free: Word)
    requires GeometryOk(g, |d|)
    ensures free == 0xFFFF_FFFF ==> CountOk(g, Table(g, d), free)
  {}

  // ---------------------------------------------------------------- syncing and mounting again

  /** The counts survive: what syncing writes to the FSInfo sector, mounting the medium reads back. */
  method SyncAndRemount(v: Volume) returns (w: Volume?)
    requires v.Counted() && v.InfoDue() && v.g.volbase + 1 < v.g.fatbase
    requires Boot(v.Disc()[v.g.volbase], v.g.volbase, v.g) && Number(v.Disc()[v.g.volbase][48..50]) == 1
    modifies v`disk, v`wflag, v`winsect, v.win, v`fsiFlag
    ensures w != null && w.g == v.g && w.disk == v.disk
    ensures w.freeClst == old(v.freeClst) && w.lastClst == old(v.lastClst) && w.fsiFlag == 0
  {
    ghost var d, s := v.Disc(), v.g.volbase;
    ghost var free, last := v.freeClst, v.lastClst;
    FatAreaInside(v.g, |v.disk|);
    v.SyncFs();
    assert v.disk[s] == d[s] && v.disk[s + 1] == InfoSector(free, last);
    InfoNumbers(free, last);
    forall h | Boot(d[s], s, h) ensures h == v.g { OneBoot(d[s], s, v.g, h); }
    var dirbase, nRoot;
    w, dirbase, nRoot := Mount(v.disk, v.g.volbase);
  }

  lemma FatAreaInside(g: Geometry, n: nat)
    requires GeometryOk(g, n)
    ensures g.volbase + 1 < n
  {
    BaseMono(g, 2, g.nFatent);
  }

  lemma InfoNumbers(free: Word, last: Word)
    ensures var x := InfoSector(free, last);
      && Number(x[0..4]) == 0x41615252 && Number(x[484..488]) == 0x61417272 && Number(x[510..512]) == 0xAA55
      && Number(x[488..492]) == free && Number(x[492..496]) == last
  {
    InfoReadsBack(free, last);
    InfoFields(InfoSector(free, last));
  }

  /** A boot sector describes one geometry. */
  lemma OneBoot(x: Sector, bsect: nat, g: Geometry, h: Geometry)
    requires Boot(x, bsect, g) && Boot(x, bsect, h)
    ensures g == h
  {
    MountsExactly(x, bsect, g);
    MountsExactly(x, bsect, h);
  }
}
