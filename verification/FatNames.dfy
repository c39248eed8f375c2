/** Long file names split over directory entries (system/ff.c: put_lfn, pick_lfn, sum_sfn and what
    dir_read makes of one entry after another). A directory is a sequence of 32-byte entries; a name is a
    sequence of UTF-16 units. */
module FatNames {
  import opened Bits
  import opened FatDisk

  const LLEF := 0x40
  const AM_LFN := 0x0F
  const AM_VOL := 0x08
  const DDEM := 0xE5
  const DOT := 0x2E
  const MAX_LFN := 255
  const NO_LFN := 0xFFFF_FFFF      // dp->blk_ofs when there is no long name

  type Unit = u: int | 0 <= u < 0x1_0000
  type DirEntry = e: seq<Byte> | |e| == 32 witness seq(32, i => 0)

  /** A name a directory can hold: neither the terminator nor the filler occurs in it. */
  predicate GoodName(name: seq<Unit>) {
    1 <= |name| <= MAX_LFN && forall i :: 0 <= i < |name| ==> name[i] != 0 && name[i] != 0xFFFF
  }

  /** The terminated working buffer. */
  function CharOf(name: seq<Unit>, i: nat): (u: Unit) {
    if i < |name| then name[i] else 0
  }

  /** Where the `s`-th unit of a part is in its entry (LfnOfs). */
  function Ofs(s: nat): (k: nat)
    ensures s < 13 ==> 1 <= k <= 30
  {
    if s < 5 then 1 + 2 * s else if s < 11 then 14 + 2 * (s - 5) else 28 + 2 * (s - 11)
  }

  function UnitAt(e: DirEntry, s: nat): (u: Unit)
    requires s < 13
  {
    Word16(e[Ofs(s)], e[Ofs(s) + 1])
  }

  /** Parts needed for a name. */
  function Parts(len: nat): (n: nat) {
    (len + 12) / 13
  }

  /** What part `ord` holds in place `s`: a unit of the name, the terminator, or filler. */
  function Slot(name: seq<Unit>, ord: nat, s: nat): (u: Unit)
    requires ord >= 1
  {
    var i := 13 * (ord - 1) + s;
    if i < |name| then name[i] else if i == |name| then 0 else 0xFFFF
  }

  /** `e` is part `ord` of the long name, tied to a short name with checksum `sum`. */
  ghost predicate IsPart(e: DirEntry, name: seq<Unit>, ord: nat, sum: Byte) {
    && 1 <= ord <= 20
    && e[0] == (if 13 * ord >= |name| then ord + LLEF else ord)
    && e[11] == AM_LFN && e[12] == 0 && e[13] == sum && e[26] == 0 && e[27] == 0
    && forall s :: 0 <= s < 13 ==> UnitAt(e, s) == Slot(name, ord, s)
  }

  /** The places of different units do not overlap, nor do they touch the fixed fields. */
  lemma Places(s: nat, t: nat)
    requires s < t < 13
    ensures Ofs(s) + 1 < Ofs(t)
    ensures Ofs(s) != 11 && Ofs(s) + 1 != 11 && Ofs(s) != 13 && Ofs(s) + 1 != 13 && Ofs(s) != 12 && Ofs(s) + 1 != 12
    ensures Ofs(t) != 26 && Ofs(t) + 1 != 26 && Ofs(t) != 27 && Ofs(s) != 26 && Ofs(s) + 1 != 26 && Ofs(s) != 27
  {}

  /** The checksum of the bytes of a short name. */
  function SumOf(x: seq<Byte>): (sum: Byte) {
    if x == [] then 0 else RotateAdd(SumOf(x[..|x| - 1]), x[|x| - 1])
  }

  function RotateAdd(sum: Byte, b: Byte): (r: Byte) {
    (sum / 2 + sum * 128 % 256 + b) % 256
  }

  /** Each byte is added, modulo 256, to the sum so far with its 8 digits rotated right by one. */
  lemma SumDigits(x: seq<Byte>, b: Byte) returns (rotated: Byte)
    ensures SumOf([]) == 0 && SumOf(x + [b]) == (rotated + b) % 256
    ensures forall i :: 0 <= i < 8 ==> (Bit(rotated, i) <==> Bit(SumOf(x), (i + 1) % 8))
  {
    var sum := SumOf(x);
    assert (x + [b])[..|x|] == x;
    rotated := 128 * (sum % 2) + sum / 2;
    forall i | 0 <= i < 8 ensures Bit(rotated, i) <==> Bit(sum, (i + 1) % 8) {
      RotatedDigit(sum % 2, sum / 2, i, (i + 1) % 8);
    }
  }

  lemma RotatedDigit(low: nat, high: nat, i: nat, j: nat)
    requires low < 2 && high < 128 && i < 8 && j == (i + 1) % 8
    ensures Bit(128 * low + high, i) <==> Bit(2 * high + low, j)
  {
    assert Pow2(7) == 128;
    DigitBelow(low, high, 7, i);
  }

  /** Digits below k are those of the low part, and digit k is what is on top of it. */
  lemma {:induction false} DigitBelow(low: nat, high: nat, k: nat, i: nat)
    requires low < 2 && high < Pow2(k) && i <= k
    ensures Bit(low * Pow2(k) + high, i) <==> if i < k then Bit(high, i) else low == 1
  {
    if k > 0 {
      Assoc(low, Pow2(k - 1));
      if i > 0 { DigitBelow(low, high / 2, k - 1, i - 1); }
    }
  }

  /** `sum_sfn`: the checksum of the 11 bytes a directory entry starts with. */
  method Checksum(e: seq<Byte>) returns (sum: Byte)
    requires |e| >= 11
    ensures sum == SumOf(e[..11])
  {
    sum := 0;
    var n := 0;
    while n < 11
      invariant 0 <= n <= 11 && sum == SumOf(e[..n])
    {
      sum := RotateAdd(sum, e[n]);
      assert e[..n + 1][..n] == e[..n];
      n := n + 1;
    }
  }

  // ---------------------------------------------------------------- put_lfn

  /** The first `s` units are in place. */
  ghost predicate Written(e: seq<Byte>, name: seq<Unit>, ord: nat, sum: Byte, s: nat) {
    && |e| == 32 && 1 <= ord && s <= 13
    && e[11] == AM_LFN && e[12] == 0 && e[13] == sum && e[26] == 0 && e[27] == 0
    && forall t :: 0 <= t < s ==> UnitAt(e, t) == Slot(name, ord, t)
  }

  /** Stores one more unit. */
  lemma StoreUnit(e: DirEntry, f: DirEntry, name: seq<Unit>, ord: nat, sum: Byte, s: nat, wc: Unit)
    requires Written(e, name, ord, sum, s) && s < 13 && wc == Slot(name, ord, s)
    requires f == e[Ofs(s) := wc % 256][Ofs(s) + 1 := wc / 256]
    ensures Written(f, name, ord, sum, s + 1)
  {
    forall t | 0 <= t < s + 1 ensures UnitAt(f, t) == Slot(name, ord, t) {
      if t < s { Places(t, s); }
    }
  }

  /** Unit `s` of part `ord` is at its place, low byte first: a unit of the name, or behind it once 0 and then
      0xFFFF. */
  predicate UnitIs(e: seq<Byte>, name: seq<Unit>, ord: nat, s: int) {
    && |e| == 32 && 1 <= ord && 0 <= s < 13
    && var k, i: int := [1, 3, 5, 7, 9, 14, 16, 18, 20, 22, 24, 28, 30][s], 13 * (ord - 1) + s;
    && var lo: int, hi: int := e[k], e[k + 1];
    && lo + 256 * hi == if i < |name| then name[i] else if i == |name| then 0 else 0xFFFF
  }

  lemma PartUnits(e: DirEntry, name: seq<Unit>, ord: nat, sum: Byte)
    requires IsPart(e, name, ord, sum)
    ensures forall s {:trigger UnitIs(e, name, ord, s)} :: 0 <= s < 13 ==> UnitIs(e, name, ord, s)
  {
    forall s | 0 <= s < 13 ensures UnitIs(e, name, ord, s) { assert UnitAt(e, s) == Slot(name, ord, s); }
  }

  /** Fills an entry with part `ord` of the name. */
  method PutLfn(name: seq<Unit>, dir: array<Byte>, ord: nat, sum: Byte)
    requires dir.Length == 32 && GoodName(name) && 1 <= ord <= Parts(|name|)
    modifies dir
    ensures IsPart(dir[..], name, ord, sum)
    ensures dir[0] == (if 13 * ord >= |name| then ord + 0x40 else ord) && dir[11] == 0x0F && dir[13] == sum
    ensures forall s {:trigger UnitIs(dir[..], name, ord, s)} :: 0 <= s < 13 ==> UnitIs(dir[..], name, ord, s)
  {
    dir[13], dir[11], dir[12] := sum, AM_LFN, 0;
    dir[26], dir[27] := 0, 0;
    var i := (ord - 1) * 13;
    var s := 0;
    var wc: Unit := 0;
    while s < 13
      invariant 0 <= s <= 13 && Written(dir[..], name, ord, sum, s)
      invariant if wc == 0xFFFF then 13 * (ord - 1) + s > |name| else i == 13 * (ord - 1) + s <= |name|
    {
      if wc != 0xFFFF {
        wc := CharOf(name, i);
        i := i + 1;
      }
      StoreHere(name, dir, ord, sum, s, wc);
      if wc == 0 { wc := 0xFFFF; }
      s := s + 1;
    }
    PartHasName(ord, |name|);
    var mark: Byte := if wc == 0xFFFF || CharOf(name, i) == 0 then ord + LLEF else ord;
    ghost var e := dir[..];
    dir[0] := mark;
    assert dir[..] == e[0 := mark];
    PartUnits(dir[..], name, ord, sum);
  }

  method StoreHere(ghost name: seq<Unit>, dir: array<Byte>, ghost ord: nat, ghost sum: Byte, s: nat, wc: Unit)
    requires dir.Length == 32 && s < 13 && Written(dir[..], name, ord, sum, s) && wc == Slot(name, ord, s)
    modifies dir
    ensures Written(dir[..], name, ord, sum, s + 1)
  {
    ghost var e := dir[..];
    dir[Ofs(s)] := wc % 256;
    dir[Ofs(s) + 1] := wc / 256;
    StoreUnit(e, dir[..], name, ord, sum, s, wc);
  }

  lemma PartHasName(ord: nat, len: nat)
    requires 1 <= ord <= Parts(len) && len <= MAX_LFN
    ensures 13 * (ord - 1) < len && ord <= 20
  {}

  // ---------------------------------------------------------------- pick_lfn

  /** The state of the copying loop: next place in the buffer, and whether the terminator is still to come. */
  datatype Picking = Picking(ok: bool, buf: seq<Unit>, i: nat, live: bool)

  /** One unit. */
  function PickOne(p: Picking, uc: Unit): (q: Picking)
    ensures |q.buf| == |p.buf|
  {
    if !p.ok then p
    else if p.live then
      if p.i >= |p.buf| then p.(ok := false) else Picking(true, p.buf[p.i := uc], p.i + 1, uc != 0)
    else p.(ok := uc == 0xFFFF)
  }

  function PickUnits(p: Picking, e: DirEntry, s: nat): (q: Picking)
    requires s <= 13
    ensures |q.buf| == |p.buf|
  {
    if s == 0 then p else PickOne(PickUnits(p, e, s - 1), UnitAt(e, s - 1))
  }

  /** `(dir[LDIR_Ord] & ~LLEF) - 1` times 13, on 32 bits. */
  function StartOf(b: Byte): (i: nat) {
    var ord := if b / LLEF % 2 == 1 then b - LLEF else b;
    if ord == 0 then 0x1_0000_0000 - 13 else 13 * (ord - 1)
  }

  /** What `pick_lfn` does to the buffer: the result and whether the entry is valid. */
  function Pick(buf: seq<Unit>, e: DirEntry): (r: Picking)
    ensures |r.buf| == |buf|
  {
    if e[26] != 0 || e[27] != 0 then Picking(false, buf, 0, true)
    else
      var p := PickUnits(Picking(true, buf, StartOf(e[0]), true), e, 13);
      if p.ok && e[0] / LLEF % 2 == 1 && p.live then
        if p.i >= |buf| then p.(ok := false) else p.(buf := p.buf[p.i := 0])
      else p
  }

  method PickLfn(buf: array<Unit>, e: DirEntry) returns (ok: bool)
    modifies buf
    ensures ok == Pick(old(buf[..]), e).ok && buf[..] == Pick(old(buf[..]), e).buf
  {
    if Word16(e[26], e[27]) != 0 { return false; }
    ghost var start := Picking(true, buf[..], StartOf(e[0]), true);
    var i: nat := StartOf(e[0]);
    var wc: Unit := 1;
    var s := 0;
    while s < 13
      invariant 0 <= s <= 13 && PickUnits(start, e, s) == Picking(true, buf[..], i, wc != 0)
    {
      var uc := UnitAt(e, s);
      if wc != 0 {
        if i >= buf.Length {
          PickFails(start, e, s + 1, 13);
          return false;
        }
        buf[i] := uc;
        wc := uc;
        i := i + 1;
      } else if uc != 0xFFFF {
        PickFails(start, e, s + 1, 13);
        return false;
      }
      s := s + 1;
    }
    if e[0] / LLEF % 2 == 1 && wc != 0 {
      if i >= buf.Length { return false; }
      buf[i] := 0;
    }
    ok := true;
  }

  /** A failed copy stays failed. */
  lemma {:induction false} PickFails(p: Picking, e: DirEntry, s: nat, t: nat)
    requires s <= t <= 13 && !PickUnits(p, e, s).ok
    ensures PickUnits(p, e, t) == PickUnits(p, e, s)
  {
    if s < t { PickFails(p, e, s, t - 1); }
  }

  /** Unit `x` of the buffer after part `ord` was copied into it. */
  function After(buf: seq<Unit>, name: seq<Unit>, ord: nat, s: nat, x: nat): (u: Unit)
    requires x < |buf| && ord >= 1
  {
    if 13 * (ord - 1) <= x < 13 * (ord - 1) + s && x <= |name| then CharOf(name, x) else buf[x]
  }

  /** The copying loop on a genuine part. */
  ghost predicate Picks(p: Picking, buf: seq<Unit>, name: seq<Unit>, ord: nat, s: nat) {
    && p.ok && |p.buf| == |buf| && ord >= 1
    && p.live == (13 * (ord - 1) + s <= |name|)
    && p.i == (if p.live then 13 * (ord - 1) + s else |name| + 1)
    && forall x :: 0 <= x < |buf| ==> p.buf[x] == After(buf, name, ord, s, x)
  }

  lemma PicksStep(p: Picking, buf: seq<Unit>, name: seq<Unit>, ord: nat, s: nat)
    requires Picks(p, buf, name, ord, s) && GoodName(name) && |buf| == MAX_LFN + 1 && s < 13
    ensures Picks(PickOne(p, Slot(name, ord, s)), buf, name, ord, s + 1)
  {}

  lemma {:induction false} PicksUnits(buf: seq<Unit>, e: DirEntry, name: seq<Unit>, ord: nat, sum: Byte, s: nat)
    requires IsPart(e, name, ord, sum) && GoodName(name) && |buf| == MAX_LFN + 1 && s <= 13 && ord <= Parts(|name|)
    ensures Picks(PickUnits(Picking(true, buf, 13 * (ord - 1), true), e, s), buf, name, ord, s)
  {
    if s > 0 {
      PicksUnits(buf, e, name, ord, sum, s - 1);
      assert UnitAt(e, s - 1) == Slot(name, ord, s - 1);
      PicksStep(PickUnits(Picking(true, buf, 13 * (ord - 1), true), e, s - 1), buf, name, ord, s - 1);
    }
  }

  /** Where the terminator is among the first `s` units of a part; `s` if it is not there. */
  function FirstZero(e: DirEntry, s: nat): (n: nat)
    requires s <= 13
    ensures n <= s && (n < s ==> UnitAt(e, n) == 0) && forall t :: 0 <= t < n ==> UnitAt(e, t) != 0
  {
    if s == 0 then 0
    else var n := FirstZero(e, s - 1); if n == s - 1 && UnitAt(e, n) != 0 then s else n
  }

  /** Units after the terminator are filler. */
  ghost predicate Filled(e: DirEntry, n: nat, s: nat) {
    s <= 13 && forall t :: n < t < s ==> UnitAt(e, t) == 0xFFFF
  }

  /** `buf` with the first `n` units of the part from place `i` on, and `extra` zeroes after them. */
  function PutUnits(buf: seq<Unit>, e: DirEntry, i: nat, n: nat, extra: nat): (r: seq<Unit>)
    requires n <= 13
    ensures |r| == |buf|
    ensures forall x :: 0 <= x < |buf| ==>
      r[x] == if i <= x < i + n then UnitAt(e, x - i) else if i + n <= x < i + n + extra then 0 else buf[x]
  {
    seq(|buf|, x requires 0 <= x < |buf| => PutUnit(buf, e, i, n, extra, x))
  }

  function PutUnit(buf: seq<Unit>, e: DirEntry, i: nat, n: nat, extra: nat, x: nat): (u: Unit)
    requires n <= 13 && x < |buf|
  {
    if i <= x < i + n then UnitAt(e, x - i) else if i + n <= x < i + n + extra then 0 else buf[x]
  }

  /** The copying loop on any entry, after `s` units. */
  ghost predicate UnitsTaken(p: Picking, buf: seq<Unit>, e: DirEntry, i: nat, s: nat) {
    && s <= 13
    && var n := FirstZero(e, s);
    var used := if n < s then n + 1 else n;
    && (p.ok <==> (s == 0 || i + used <= |buf|) && Filled(e, n, s))
    && (p.ok ==> p.live == (n == s) && p.i == i + used && p.buf == PutUnits(buf, e, i, used, 0))
  }

  lemma TakeUnit(p: Picking, buf: seq<Unit>, e: DirEntry, i: nat, s: nat)
    requires s < 13 && UnitsTaken(p, buf, e, i, s) && |p.buf| == |buf|
    ensures UnitsTaken(PickOne(p, UnitAt(e, s)), buf, e, i, s + 1)
  {
    var n := FirstZero(e, s);
    if n == s {
      if p.ok && i + s < |buf| {
        assert PutUnits(buf, e, i, s, 0)[i + s := UnitAt(e, s)] == PutUnits(buf, e, i, s + 1, 0);
      }
    } else {
      assert FirstZero(e, s + 1) == n;
      assert Filled(e, n, s + 1) <==> Filled(e, n, s) && UnitAt(e, s) == 0xFFFF;
    }
  }

  lemma {:induction false} PickUnitsIs(buf: seq<Unit>, e: DirEntry, i: nat, s: nat)
    requires s <= 13
    ensures UnitsTaken(PickUnits(Picking(true, buf, i, true), e, s), buf, e, i, s)
  {
    if s == 0 {
      assert buf == PutUnits(buf, e, i, 0, 0);
    } else {
      PickUnitsIs(buf, e, i, s - 1);
      TakeUnit(PickUnits(Picking(true, buf, i, true), e, s - 1), buf, e, i, s - 1);
    }
  }

  /** Any entry, taken or refused: it is taken exactly if its field of two bytes at 26 is zero, the units after the
      terminator are filler, and the units fit into the buffer, with a terminator behind them if the part is
      marked as last and has none; and then these are what the buffer gets. */
  lemma PickExactly(buf: seq<Unit>, e: DirEntry)
    ensures var r := Pick(buf, e);
      var n := FirstZero(e, 13);
      var used, extra := if n < 13 then n + 1 else 13, if n == 13 && e[0] / 0x40 % 2 == 1 then 1 else 0;
      && (r.ok <==> e[26] == 0 && e[27] == 0 && StartOf(e[0]) + used + extra <= |buf| && Filled(e, n, 13))
      && (r.ok ==> r.buf == PutUnits(buf, e, StartOf(e[0]), used, extra))
  {
    PickUnitsIs(buf, e, StartOf(e[0]), 13);
  }

  lemma MarkOf(ord: nat)
    requires 1 <= ord <= 20
    ensures StartOf(ord) == StartOf(ord + LLEF) == 13 * (ord - 1)
    ensures ord / LLEF % 2 == 0 && (ord + LLEF) / LLEF % 2 == 1
  {}

  /** Copying part `ord`: its units of the name, and the terminator if it is the last part. */
  lemma PickPart(buf: seq<Unit>, e: DirEntry, name: seq<Unit>, ord: nat, sum: Byte)
    requires IsPart(e, name, ord, sum) && GoodName(name) && |buf| == MAX_LFN + 1 && ord <= Parts(|name|)
    ensures var r := Pick(buf, e);
      && r.ok
      && forall x :: 0 <= x <= MAX_LFN ==>
           r.buf[x] == if 13 * ord >= |name| then (if 13 * (ord - 1) <= x <= |name| then CharOf(name, x) else buf[x])
                       else After(buf, name, ord, 13, x)
  {
    MarkOf(ord);
    PicksUnits(buf, e, name, ord, sum, 13);
  }

  // ---------------------------------------------------------------- dir_read

  /** `ord`, `sum`, `dp->blk_ofs` and the name buffer while a directory is being read. */
  datatype Scan = Scan(ord: Byte, sum: Byte, blkOfs: nat, buf: seq<Unit>)

  datatype Outcome = EndOfTable | Skip(scan: Scan) | Stop(scan: Scan)

  /** The attribute without the archive bit says "volume label". */
  predicate IsVolume(attr: Byte) {
    (if attr / 0x20 % 2 == 1 then attr - 0x20 else attr) == AM_VOL
  }

  /** One entry, number `at` of the directory. */
  function ReadEntry(st: Scan, e: DirEntry, at: nat): (r: Outcome) {
    var attr := e[11] % 0x40;
    if e[0] == 0 then EndOfTable
    else if e[0] == DDEM || e[0] == DOT || IsVolume(attr) then Skip(st.(ord := 0xFF))
    else if attr == AM_LFN then
      var first := e[0] / LLEF % 2 == 1;
      var b := if first then e[0] - LLEF else e[0];
      var begun := if first then st.(sum := e[13], ord := b, blkOfs := 32 * at) else st;
      if b == begun.ord && begun.sum == e[13] then
        var p := Pick(begun.buf, e);
        Skip(begun.(buf := p.buf, ord := if p.ok && begun.ord > 0 then begun.ord - 1 else 0xFF))
      else Skip(begun.(ord := 0xFF))
    else Stop(if st.ord != 0 || st.sum != SumOf(e[..11]) then st.(blkOfs := NO_LFN) else st)
  }

  datatype Found = NoFile | FoundAt(at: nat, scan: Scan)

  function ReadFrom(table: seq<DirEntry>, k: nat, st: Scan): (r: Found)
    decreases |table| - k
  {
    if k >= |table| then NoFile
    else match ReadEntry(st, table[k], k)
         case EndOfTable => NoFile
         case Skip(next) => ReadFrom(table, k + 1, next)
         case Stop(last) => FoundAt(k, last)
  }

  // ---------------------------------------------------------------- what reading finds

  /** Entry `i` is a file or directory: not unused, deleted (0xE5) or named with a dot (0x2E), and neither part of
      a long name (attribute 0x0F) nor a volume label (0x08, with the archive bit 0x28). */
  predicate FileAt(t: seq<DirEntry>, i: int) {
    && 0 <= i < |t|
    && t[i][0] != 0 && t[i][0] != 0xE5 && t[i][0] != 0x2E
    && t[i][11] % 64 != 0x0F && t[i][11] % 64 != 0x08 && t[i][11] % 64 != 0x28
  }

  /** A first byte of zero ends the directory. */
  predicate EndAt(t: seq<DirEntry>, i: int) {
    0 <= i < |t| && t[i][0] == 0
  }

  /** Entry `i` is the first file from entry `k` on, and the directory does not end before it. */
  ghost predicate FirstFile(t: seq<DirEntry>, k: nat, i: nat) {
    && k <= i && FileAt(t, i)
    && (forall j {:trigger FileAt(t, j)} :: k <= j < i ==> !FileAt(t, j))
    && (forall j {:trigger EndAt(t, j)} :: k <= j < i ==> !EndAt(t, j))
  }

  lemma VolumeIs(attr: Byte)
    requires attr < 64
    ensures IsVolume(attr) <==> attr == 0x08 || attr == 0x28
  {}

  /** What one entry is to the reader. */
  lemma EntryKind(st: Scan, t: seq<DirEntry>, k: nat)
    requires k < |t|
    ensures var r := ReadEntry(st, t[k], k); (r.EndOfTable? <==> EndAt(t, k)) && (r.Stop? <==> FileAt(t, k))
  {
    VolumeIs(t[k][11] % 64);
  }

  /** Every file from entry `k` on is behind the end of the directory. */
  ghost predicate NoneFrom(t: seq<DirEntry>, k: nat) {
    forall i {:trigger FileAt(t, i)} :: k <= i && FileAt(t, i) ==>
      exists j {:trigger EndAt(t, j)} :: k <= j < i && EndAt(t, j)
  }

  lemma NoneEarlier(t: seq<DirEntry>, k: nat)
    requires NoneFrom(t, k + 1) && !FileAt(t, k)
    ensures NoneFrom(t, k)
  {}

  /** Reading stops at the first file, and nowhere exactly when there is none. */
  lemma {:induction false} ReadFinds(t: seq<DirEntry>, k: nat, st: Scan)
    ensures var r := ReadFrom(t, k, st);
      if r.FoundAt? then FirstFile(t, k, r.at) else NoneFrom(t, k)
    decreases |t| - k
  {
    if k < |t| {
      EntryKind(st, t, k);
      var r := ReadEntry(st, t[k], k);
      if r.Skip? {
        ReadFinds(t, k + 1, r.scan);
        if NoneFrom(t, k + 1) { NoneEarlier(t, k); }
      }
    }
  }

  /** Entry `j` is a part of a long name for checksum `sum`, numbered so that the one before entry `k` has number
      `left + 1`; that in entry `f` is marked as the first. */
  predicate CountAt(t: seq<DirEntry>, f: nat, k: nat, left: nat, sum: Byte, j: int) {
    && 0 <= j < |t|
    && t[j][11] % 64 == 0x0F && t[j][13] == sum && t[j][0] == left + (k - j) + (if j == f then 0x40 else 0)
    && t[j][26] == 0 && t[j][27] == 0
  }

  /** Entries from `f` up to `k` are parts counting down to `left + 1`. */
  ghost predicate CountsDown(t: seq<DirEntry>, f: nat, k: nat, left: nat, sum: Byte) {
    f < k <= |t| && forall j {:trigger CountAt(t, f, k, left, sum, j)} :: f <= j < k ==> CountAt(t, f, k, left, sum, j)
  }

  /** The short name in entry `at` has a long name, whose first part is in entry `f`. */
  ghost predicate LongNamed(t: seq<DirEntry>, f: nat, at: nat) {
    at < |t| && CountsDown(t, f, at, 0, SumOf(t[at][..11]))
  }

  /** While reading: unless the countdown was broken off, the entries from blk_ofs on count down. */
  ghost predicate Tracks(st: Scan, t: seq<DirEntry>, p: nat, k: nat) {
    st.ord == 0xFF ||
    (st.blkOfs % 32 == 0 && p <= st.blkOfs / 32 && CountsDown(t, st.blkOfs / 32, k, st.ord, st.sum))
  }

  /** A copied part has a number from 1 to 20. */
  lemma Picked(buf: seq<Unit>, e: DirEntry)
    requires |buf| == MAX_LFN + 1 && Pick(buf, e).ok
    ensures StartOf(e[0]) <= MAX_LFN && e[26] == 0 && e[27] == 0
  {
    var p := Picking(true, buf, StartOf(e[0]), true);
    assert PickUnits(p, e, 0) == p;
    assert PickUnits(p, e, 1) == PickOne(p, UnitAt(e, 0));
    if StartOf(e[0]) > MAX_LFN { PickFails(p, e, 1, 13); }
  }

  /** One more part. */
  lemma CountsOn(t: seq<DirEntry>, f: nat, k: nat, l: nat, before: nat, left: nat, sum: Byte)
    requires f == k || (before == left + 1 && CountsDown(t, f, k, before, sum))
    requires l == k + 1 && f <= k && CountAt(t, f, l, left, sum, k)
    ensures CountsDown(t, f, l, left, sum)
  {
    forall j | f <= j < l ensures CountAt(t, f, l, left, sum, j) {
      if j < k { assert CountAt(t, f, k, before, sum, j); }
    }
  }

  lemma TracksOn(st: Scan, t: seq<DirEntry>, p: nat, k: nat)
    requires |st.buf| == MAX_LFN + 1 && p <= k < |t| && Tracks(st, t, p, k) && ReadEntry(st, t[k], k).Skip?
    ensures var n := ReadEntry(st, t[k], k).scan; |n.buf| == MAX_LFN + 1 && Tracks(n, t, p, k + 1)
  {
    var e, n := t[k], ReadEntry(st, t[k], k).scan;
    if n.ord != 0xFF {
      var first := e[0] / LLEF % 2 == 1;
      Picked(st.buf, e);
      var f := if first then k else st.blkOfs / 32;
      CountsOn(t, f, k, k + 1, st.ord, n.ord, n.sum);
    }
  }

  /** A long name is reported only where it is: with the place of its first part, the parts from there on counting
      down to the file found, all with the checksum of its short name. */
  lemma {:induction false} NamedRightly(t: seq<DirEntry>, p: nat, k: nat, st: Scan)
    requires |st.buf| == MAX_LFN + 1 && p <= k && Tracks(st, t, p, k)
    ensures var r := ReadFrom(t, k, st);
      r.FoundAt? && r.scan.blkOfs != NO_LFN ==>
        r.scan.blkOfs % 32 == 0 && p <= r.scan.blkOfs / 32 && LongNamed(t, r.scan.blkOfs / 32, r.at)
    decreases |t| - k
  {
    if k < |t| {
      var r := ReadEntry(st, t[k], k);
      if r.Skip? {
        TracksOn(st, t, p, k);
        NamedRightly(t, p, k + 1, r.scan);
      }
    }
  }

  // ---------------------------------------------------------------- what dir_register leaves

  /** A short-name entry of a file or directory. */
  predicate IsShort(e: DirEntry) {
    e[0] != 0 && e[0] != DDEM && e[0] != DOT && e[11] % 0x40 != AM_LFN && !IsVolume(e[11] % 0x40)
  }

  /** The parts of the long name, last one first, and then the short-name entry, from entry `k` on. */
  ghost predicate Registered(table: seq<DirEntry>, k: nat, name: seq<Unit>) {
    var n := Parts(|name|);
    && GoodName(name) && k + n < |table| && IsShort(table[k + n])
    && PartsAt(table, k, name, SumOf(table[k + n][..11]), n)
  }

  /** Entry k + j is the j-th part from the end. */
  ghost predicate PartAt(table: seq<DirEntry>, k: nat, name: seq<Unit>, sum: Byte, j: nat) {
    j < Parts(|name|) && k + j < |table| && IsPart(table[k + j], name, Parts(|name|) - j, sum)
  }

  ghost predicate PartsAt(table: seq<DirEntry>, k: nat, name: seq<Unit>, sum: Byte, n: nat) {
    forall j :: 0 <= j < n ==> PartAt(table, k, name, sum, j)
  }

  /** One more entry leaves the parts before it. */
  lemma MoreParts(table: seq<DirEntry>, k: nat, name: seq<Unit>, sum: Byte, n: nat, e: DirEntry)
    requires PartsAt(table, k, name, sum, n) && k + n < |table|
    ensures PartsAt(table[k + n := e], k, name, sum, n)
    ensures n < Parts(|name|) && IsPart(e, name, Parts(|name|) - n, sum) ==>
      PartsAt(table[k + n := e], k, name, sum, n + 1)
  {
    var t := table[k + n := e];
    forall j | 0 <= j < n ensures PartAt(t, k, name, sum, j) { assert PartAt(table, k, name, sum, j); }
  }

  /** After `j` parts: the countdown, the checksum, where the name starts, and the units read so far. */
  ghost predicate Counting(st: Scan, table: seq<DirEntry>, k: nat, name: seq<Unit>, j: nat) {
    var n := Parts(|name|);
    && 1 <= j <= n && k + n < |table|
    && st.ord == n - j && st.sum == SumOf(table[k + n][..11]) && st.blkOfs == 32 * k && |st.buf| == MAX_LFN + 1
    && forall x :: 13 * (n - j) <= x <= |name| && x <= MAX_LFN ==> st.buf[x] == CharOf(name, x)
  }

  /** The first part, recognised by its mark, starts the countdown whatever came before. */
  lemma FirstPart(st: Scan, table: seq<DirEntry>, k: nat, name: seq<Unit>)
    requires Registered(table, k, name) && |st.buf| == MAX_LFN + 1
    ensures var r := ReadEntry(st, table[k], k); r.Skip? && Counting(r.scan, table, k, name, 1)
  {
    var n := Parts(|name|);
    var e := table[k];
    assert PartAt(table, k, name, SumOf(table[k + n][..11]), 0);
    PartHasName(n, |name|);
    MarkOf(n);
    PickPart(st.buf, e, name, n, SumOf(table[k + n][..11]));
  }

  lemma NextPart(st: Scan, table: seq<DirEntry>, k: nat, name: seq<Unit>, j: nat)
    requires Registered(table, k, name) && Counting(st, table, k, name, j) && j < Parts(|name|)
    ensures var r := ReadEntry(st, table[k + j], k + j); r.Skip? && Counting(r.scan, table, k, name, j + 1)
  {
    var n := Parts(|name|);
    var e := table[k + j];
    assert PartAt(table, k, name, SumOf(table[k + n][..11]), j);
    PartHasName(n - j, |name|);
    MarkOf(n - j);
    PickPart(st.buf, e, name, n - j, SumOf(table[k + n][..11]));
  }

  lemma {:induction false} RestRead(st: Scan, table: seq<DirEntry>, k: nat, name: seq<Unit>, j: nat)
    requires Registered(table, k, name) && Counting(st, table, k, name, j)
    ensures var r := ReadFrom(table, k + j, st);
      r.FoundAt? && r.at == k + Parts(|name|) && Counting(r.scan, table, k, name, Parts(|name|))
    decreases Parts(|name|) - j
  {
    if j < Parts(|name|) {
      NextPart(st, table, k, name, j);
      RestRead(ReadEntry(st, table[k + j], k + j).scan, table, k, name, j + 1);
    }
  }

  /** Round trip: reading from where a name was registered, in whatever state, stops at its short entry with
      exactly that name in the buffer and the block starting at its first entry. */
  lemma ReadsBack(table: seq<DirEntry>, k: nat, name: seq<Unit>, st: Scan)
    requires Registered(table, k, name) && |st.buf| == MAX_LFN + 1
    ensures var r := ReadFrom(table, k, st);
      && r.FoundAt? && r.at == k + Parts(|name|) && r.scan.blkOfs == 32 * k && |r.scan.buf| == MAX_LFN + 1
      && r.scan.buf[..|name|] == name && r.scan.buf[|name|] == 0
  {
    FirstPart(st, table, k, name);
    RestRead(ReadEntry(st, table[k], k).scan, table, k, name, 1);
    var buf := ReadFrom(table, k, st).scan.buf;
    forall x | 0 <= x < |name| ensures buf[..|name|][x] == name[x] { assert buf[x] == CharOf(name, x); }
  }

  /** Where reading passes: it meets another file first, or stops at the short entry with the name. */
  lemma {:induction false} ReadMeets(table: seq<DirEntry>, p: nat, k: nat, name: seq<Unit>, st: Scan)
    requires Registered(table, k, name) && p <= k && |st.buf| == MAX_LFN + 1
    requires forall i :: p <= i < k ==> table[i][0] != 0
    ensures var r := ReadFrom(table, p, st);
      r.FoundAt? && (r.at < k || (r.at == k + Parts(|name|) && r.scan.blkOfs == 32 * k
                                  && |r.scan.buf| == MAX_LFN + 1
                                  && r.scan.buf[..|name|] == name && r.scan.buf[|name|] == 0))
    decreases k - p
  {
    if p == k {
      ReadsBack(table, k, name, st);
    } else {
      var r := ReadEntry(st, table[p], p);
      if r.Skip? { ReadMeets(table, p + 1, k, name, r.scan); }
    }
  }

  /** The short-name entry: the name, no attributes yet, the case flags, zeroes. */
  function ShortEntry(fn: seq<Byte>, nt: Byte): (e: DirEntry)
    requires |fn| == 11
  {
    fn + [0, nt] + seq(19, i => 0)
  }
}
