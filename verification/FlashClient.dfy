/** Any interleaving of calls on up to four handles of the flash device is a run of a plain byte array with
    four cursors, and every read returns the bytes last written. */
module FlashClient {
  import opened Bits
  import opened FlashSteps
  import opened Flash

  datatype Plain = Plain(bytes: seq<Byte>, fds: seq<OpenFd>)

  datatype Call =
    | OpenCall(fd: int)
    | ReadCall(fd: int, n: nat)
    | WriteCall(fd: int, x: seq<Byte>)
    | SeekCall(fd: int, offset: int, whence: Whence)
    | SyncCall
    | CloseCall(fd: int)

  predicate Ok(p: Plain) {
    |p.bytes| == CHIP && |p.fds| == MAX_FLASH_FDS
  }

  /** The position of descriptor `fd`, if it has an entry. */
  function At(p: Plain, fd: int): (a: int)
    ensures a == -1 || 0 <= a < 0x1_0000_0000
  {
    var i := Slot(p.fds, fd); if i < 0 then -1 else p.fds[i].fileptr
  }

  /** Calls stay inside the chip. */
  predicate Permitted(p: Plain, c: Call) {
    match c
    case ReadCall(fd, n) => At(p, fd) + n <= CHIP
    case WriteCall(fd, x) => At(p, fd) < CHIP && At(p, fd) + |x| <= CHIP
    case SeekCall(_, offset, _) => -0x8000_0000 <= offset < 0x1_0000_0000
    case _ => true
  }

  function Moved(p: Plain, fd: int, e: OpenFd): (q: Plain) {
    var i := Slot(p.fds, fd); if i < 0 then p else p.(fds := p.fds[i := e])
  }

  /** The array and the cursors after a call. */
  function Next(p: Plain, c: Call): (q: Plain)
    requires Ok(p) && Permitted(p, c)
    ensures Ok(q)
  {
    match c
    case OpenCall(fd) => Moved(p, 0, OpenFd(fd, 0))
    case ReadCall(fd, n) => if At(p, fd) < 0 then p else Moved(p, fd, OpenFd(fd, At(p, fd) + n))
    case WriteCall(fd, x) =>
      if At(p, fd) < 0 then p
      else Moved(p.(bytes := Overwrite(p.bytes, At(p, fd), x)), fd, OpenFd(fd, At(p, fd) + |x|))
    case SeekCall(fd, offset, whence) =>
      if At(p, fd) < 0 || whence == OtherWhence then p
      else
        var from := if whence == SeekSet then 0 else if whence == SeekCur then At(p, fd) else 16777215;
        Moved(p, fd, OpenFd(fd, (from + offset) % 4294967296))
    case SyncCall => p
    case CloseCall(fd) => if At(p, fd) < 0 then p else Moved(p, fd, OpenFd(0, At(p, fd)))
  }

  /** What a read returns. */
  function Output(p: Plain, c: Call): (x: seq<Byte>)
    requires Ok(p) && Permitted(p, c)
  {
    if c.ReadCall? && At(p, c.fd) >= 0 then p.bytes[At(p, c.fd)..At(p, c.fd) + c.n] else []
  }

  ghost function Shown(d: FlashDevice): (p: Plain)
    requires d.Valid()
    reads d, d.nor, d.writebuf, d.fdList
  {
    Plain(d.View(), d.fdList[..])
  }

  /** Each call of the driver is the step of the plain array. */
  method Perform(d: FlashDevice, c: Call) returns (out: seq<Byte>)
    requires d.Valid() && Permitted(Shown(d), c)
    modifies d, d.nor, d.writebuf, d.fdList
    ensures d.Valid() && (d.writebuf == null || d.writebuf == old(d.writebuf) || fresh(d.writebuf))
    ensures Shown(d) == Next(old(Shown(d)), c) && out == Output(old(Shown(d)), c)
  {
    out := [];
    var rc;
    match c {
      case OpenCall(fd) => rc := d.Open(fd);
      case ReadCall(fd, n) => rc, out := d.Read(fd, n);
      case WriteCall(fd, x) => rc := d.Write(fd, x);
      case SeekCall(fd, offset, whence) => rc := d.Lseek(fd, offset, whence);
      case SyncCall => d.Sync();
      case CloseCall(fd) => rc := d.Close(fd);
    }
  }

  /** Every call of the sequence is permitted where it is made. */
  predicate AllPermitted(p: Plain, calls: seq<Call>)
    requires Ok(p)
    decreases |calls|
  {
    calls == [] || (Permitted(p, calls[0]) && AllPermitted(Next(p, calls[0]), calls[1..]))
  }

  /** The plain array after all calls, and what they returned. */
  function After(p: Plain, calls: seq<Call>): (q: Plain)
    requires Ok(p) && AllPermitted(p, calls)
    ensures Ok(q)
    decreases |calls|
  {
    if calls == [] then p else After(Next(p, calls[0]), calls[1..])
  }

  function Outputs(p: Plain, calls: seq<Call>): (outs: seq<seq<Byte>>)
    requires Ok(p) && AllPermitted(p, calls)
    ensures |outs| == |calls|
    decreases |calls|
  {
    if calls == [] then [] else [Output(p, calls[0])] + Outputs(Next(p, calls[0]), calls[1..])
  }

  /** Any sequence of calls through the driver leaves the array and returns the bytes of the plain run. */
  method Execute(d: FlashDevice, calls: seq<Call>) returns (outs: seq<seq<Byte>>)
    requires d.Valid() && AllPermitted(Shown(d), calls)
    modifies d, d.nor, d.writebuf, d.fdList
    ensures d.Valid() && Shown(d) == After(old(Shown(d)), calls) && outs == Outputs(old(Shown(d)), calls)
  {
    outs := [];
    var rest := calls;
    ghost var p := Shown(d);
    assert outs + Outputs(p, rest) == Outputs(p, calls);
    while rest != []
      invariant d.Valid() && (d.writebuf == null || d.writebuf == old(d.writebuf) || fresh(d.writebuf))
      invariant AllPermitted(Shown(d), rest) && After(Shown(d), rest) == After(p, calls)
      invariant outs + Outputs(Shown(d), rest) == Outputs(p, calls)
      decreases |rest|
    {
      ghost var q := Shown(d);
      var out := Perform(d, rest[0]);
      assert outs + Outputs(q, rest) == (outs + [out]) + Outputs(Shown(d), rest[1..]);
      outs := outs + [out];
      rest := rest[1..];
    }
  }

  // ---------------------------------------------------------------- what runs keep

  /** The call writes byte `k`. */
  predicate Covers(p: Plain, c: Call, k: nat) {
    c.WriteCall? && At(p, c.fd) >= 0 && At(p, c.fd) <= k < At(p, c.fd) + |c.x|
  }

  predicate NoneCovers(p: Plain, calls: seq<Call>, k: nat)
    requires Ok(p) && AllPermitted(p, calls)
    decreases |calls|
  {
    calls == [] || (!Covers(p, calls[0], k) && NoneCovers(Next(p, calls[0]), calls[1..], k))
  }

  lemma StepByte(p: Plain, c: Call, k: nat)
    requires Ok(p) && Permitted(p, c) && k < CHIP
    ensures Next(p, c).bytes[k] == if Covers(p, c, k) then c.x[k - At(p, c.fd)] else p.bytes[k]
  {
    if c.WriteCall? && At(p, c.fd) >= 0 { OverwriteAt(p.bytes, At(p, c.fd), c.x, k); }
  }

  /** A byte no call writes keeps its value. */
  lemma {:induction false} Untouched(p: Plain, calls: seq<Call>, k: nat)
    requires Ok(p) && AllPermitted(p, calls) && k < CHIP && NoneCovers(p, calls, k)
    ensures After(p, calls).bytes[k] == p.bytes[k]
    decreases |calls|
  {
    if calls != [] {
      StepByte(p, calls[0], k);
      Untouched(Next(p, calls[0]), calls[1..], k);
    }
  }

  lemma {:induction false} AfterBoth(p: Plain, a: seq<Call>, b: seq<Call>)
    requires Ok(p) && AllPermitted(p, a + b)
    ensures AllPermitted(p, a) && AllPermitted(After(p, a), b)
    ensures After(p, a + b) == After(After(p, a), b)
    decreases |a|
  {
    if a == [] {
      assert a + b == b;
    } else {
      assert (a + b)[1..] == a[1..] + b;
      AfterBoth(Next(p, a[0]), a[1..], b);
    }
  }

  /** Every byte holds what the latest write covering it wrote, through whichever handle. */
  lemma LatestWrite(p: Plain, a: seq<Call>, w: Call, b: seq<Call>, k: nat)
    requires Ok(p) && AllPermitted(p, a + ([w] + b)) && k < CHIP
    requires (AfterBoth(p, a, [w] + b); Covers(After(p, a), w, k))
    requires (AfterBoth(p, a, [w] + b); AfterBoth(After(p, a), [w], b); NoneCovers(After(After(p, a), [w]), b, k))
    ensures AllPermitted(p, a)
    ensures After(p, a + ([w] + b)).bytes[k] == w.x[k - At(After(p, a), w.fd)]
  {
    AfterBoth(p, a, [w] + b);
    var q := After(p, a);
    AfterBoth(q, [w], b);
    assert [w][1..] == [];
    assert After(q, [w]) == Next(q, w);
    StepByte(q, w, k);
    Untouched(After(q, [w]), b, k);
  }

  /** What is read through one handle right after a write through another at the same place is what was
      written, though neither handle was closed and the chip may not hold it yet. */
  lemma ReadSeesWrite(p: Plain, w: Call, r: Call)
    requires Ok(p) && w.WriteCall? && r.ReadCall? && w.fd != r.fd && At(p, w.fd) >= 0
    requires AllPermitted(p, [w, r]) && At(p, r.fd) == At(p, w.fd) && r.n == |w.x|
    ensures Outputs(p, [w, r])[1] == w.x
  {
    var q := Next(p, w);
    assert [w, r][1..] == [r];
    OtherHandle(p, w, r.fd);
    assert q.bytes == Overwrite(p.bytes, At(p, w.fd), w.x);
  }

  lemma OtherHandle(p: Plain, w: Call, fd: int)
    requires Ok(p) && w.WriteCall? && Permitted(p, w) && fd != w.fd
    ensures At(Next(p, w), fd) == At(p, fd)
  {
    if At(p, w.fd) >= 0 { SlotBeside(p.fds, Slot(p.fds, w.fd), OpenFd(w.fd, At(p, w.fd) + |w.x|), fd); }
  }

  lemma {:induction false} SlotBeside(t: seq<OpenFd>, i: nat, e: OpenFd, fd: int)
    requires i < |t| && t[i].fd == e.fd != fd
    ensures Slot(t[i := e], fd) == Slot(t, fd)
  {
    if i == 0 {
      assert t[i := e][1..] == t[1..];
    } else if t[0].fd != fd {
      assert t[i := e][1..] == t[1..][i - 1 := e];
      SlotBeside(t[1..], i - 1, e, fd);
    }
  }
}
