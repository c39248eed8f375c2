/** The XMODEM-CRC/1K receiver (init/xmodem_server.c). `sent` and `received` record the line, `delivered`
    the packets handed out; they are there for the proof only. */
module Xmodem {
  import opened Bits
  import opened Crc16
  import opened XmodemTrace

  const PACKET_TIMEOUT := 1000
  const MAX_ERRORS := 100

  datatype State =
    | Start | Soh | BlockNum | BlockNeg | Data | Crc0 | Crc1 | ProcessPacket | Successful | Failure

  predicate InFrame(s: State) {
    s == BlockNum || s == BlockNeg || s == Data || s == Crc0 || s == Crc1 || s == ProcessPacket
  }

  /** What the receiver has seen of the current frame, which starts at position `at` of the bytes received. */
  ghost predicate FrameSoFar(s: State, r: seq<Byte>, at: nat, num: Byte, size: int, pos: int, data: seq<Byte>,
                             crc: Half) {
    && 1 <= at <= |r| && (r[at - 1] == SOH || r[at - 1] == STX)
    && PacketSize(size) && |data| == 1024
    && match s
       case BlockNum => at == |r|
       case BlockNeg => r[at..] == [num]
       case Data => 0 <= pos < size && r[at..] == [num, Complement(num)] + data[..pos]
       case Crc0 => pos == size && r[at..] == [num, Complement(num)] + data[..size]
       case Crc1 => pos == size && crc % 256 == 0 && r[at..] == [num, Complement(num)] + data[..size] + [crc / 256]
       case ProcessPacket => FrameAt(r, at, num, data[..size])
       case _ => true
  }

  class Server {
    var state: State
    const packetData: array<Byte>
    var packetPos: nat
    var crc: Half
    var packetSize: nat
    var repeating: bool
    var lastEvent: int
    var blockNum: Word
    var errorCount: Word
    ghost var sent: Line
    ghost var received: seq<Byte>
    ghost var delivered: seq<Packet>
    ghost var frameAt: nat

    /** The number byte the current frame must have. */
    function Expected(): (b: Byte)
      reads this
    {
      if repeating then blockNum % 256 else (blockNum + 1) % 256
    }

    ghost predicate Frame()
      reads this, packetData
    {
      InFrame(state) ==>
        && packetData.Length == 1024
        && FrameSoFar(state, received, frameAt, Expected(), packetSize, packetPos, packetData[..], crc)
        && InOrder(delivered, frameAt)
        && (state == ProcessPacket ==> !repeating)
    }

    ghost predicate Counts()
      reads this
    {
      Tally(sent, |delivered|, state == Successful, state == Failure, errorCount)
    }

    /** Everything but the state of the current frame. */
    ghost predicate Settled()
      reads this, packetData
    {
      && packetData.Length == 1024 && blockNum == |delivered| % WORD
      && AllGenuine(received, delivered) && InOrder(delivered, |received|)
      && Counts()
    }

    ghost predicate Valid()
      reads this, packetData
    {
      Settled() && Frame()
    }

    constructor ()
      ensures Valid() && state == Start && delivered == [] && received == [] && sent == Sent(Silent, PING)
    {
      state := Start;
      packetData := new Byte[1024](i => 0);
      packetPos, crc, packetSize, repeating, lastEvent, blockNum, errorCount := 0, 0, 0, false, 0, 0, 0;
      sent, received, delivered, frameAt := Sent(Silent, PING), [], [], 0;
      new;
    }

    /** The `tx_byte` callback. */
    method Tx(b: Byte)
      modifies this`sent
      ensures sent == Sent(old(sent), b)
    {
      sent := Sent(sent, b);
    }

    // ---------------------------------------------------------------- rx_byte, state by state

    /** Records the byte; nothing else has happened yet. */
    ghost method Arrive(b: Byte)
      requires Valid()
      modifies this`received
      ensures received == old(received) + [b] && Settled()
    {
      MoreBytes(received, [b], delivered);
      received := received + [b];
    }

    method RxStart(b: Byte)
      requires Valid() && (state == Start || state == Soh)
      modifies this
      ensures lastEvent == old(lastEvent)
      ensures Valid() && received == old(received) + [b] && delivered == old(delivered)
      ensures state == if b == SOH || b == STX then BlockNum else if b == EOT then Successful else old(state)
      ensures packetSize == if b == SOH then 128 else if b == STX then 1024 else old(packetSize)
      ensures sent == SentIf(old(sent), b == EOT, ACK)
      ensures blockNum == old(blockNum) && errorCount == old(errorCount) && repeating == old(repeating)
    {
      Arrive(b);
      if b == SOH {
        state, packetSize, frameAt := BlockNum, 128, |received|;
      } else if b == STX {
        state, packetSize, frameAt := BlockNum, 1024, |received|;
      } else if b == EOT {
        state := Successful;
        Tx(ACK);
      }
    }

    /** A byte that is not the one expected: an opening byte starts the frame over, keeping the packet size
        set by the first opening byte. */
    method Resync(b: Byte)
      requires InFrame(state) && Settled() && received != [] && received[|received| - 1] == b
      requires PacketSize(packetSize)
      modifies this`state, this`frameAt
      ensures Valid() && state == if b == SOH || b == STX then BlockNum else Soh
    {
      if b == SOH || b == STX {
        state, frameAt := BlockNum, |received|;
      } else {
        state := Soh;
      }
    }

    method RxBlockNum(b: Byte)
      requires Valid() && state == BlockNum
      modifies this
      ensures lastEvent == old(lastEvent)
      ensures Valid() && received == old(received) + [b] && delivered == old(delivered) && sent == old(sent)
      ensures var ours := b == (blockNum + 1) % 256 || b == blockNum % 256;
        state == if ours then BlockNeg else if b == SOH || b == STX then BlockNum else Soh
      ensures state == BlockNeg ==> repeating == (b != (blockNum + 1) % 256)
      ensures blockNum == old(blockNum) && errorCount == old(errorCount) && packetSize == old(packetSize)
    {
      Arrive(b);
      if b == (blockNum + 1) % 256 {
        state, repeating := BlockNeg, false;
      } else if b == blockNum % 256 {
        state, repeating := BlockNeg, true;
      } else {
        Resync(b);
      }
    }

    method RxBlockNeg(b: Byte)
      requires Valid() && state == BlockNeg
      modifies this
      ensures lastEvent == old(lastEvent)
      ensures Valid() && received == old(received) + [b] && delivered == old(delivered) && sent == old(sent)
      ensures state == if b == Complement(Expected()) then Data else if b == SOH || b == STX then BlockNum else Soh
      ensures state == Data ==> packetPos == 0
      ensures blockNum == old(blockNum) && errorCount == old(errorCount)
      ensures packetSize == old(packetSize) && repeating == old(repeating)
    {
      Arrive(b);
      if b == Complement(Expected()) {
        packetPos := 0;
        state := Data;
        assert received[frameAt..] == [Expected(), Complement(Expected())] + packetData[..0];
      } else {
        Resync(b);
      }
    }

    method RxData(b: Byte)
      requires Valid() && state == Data
      modifies this, packetData
      ensures lastEvent == old(lastEvent)
      ensures Valid() && received == old(received) + [b] && delivered == old(delivered) && sent == old(sent)
      ensures packetPos == old(packetPos) + 1 && packetData[..packetPos] == old(packetData[..packetPos]) + [b]
      ensures state == if packetPos >= packetSize then Crc0 else Data
      ensures blockNum == old(blockNum) && errorCount == old(errorCount)
      ensures packetSize == old(packetSize) && repeating == old(repeating)
    {
      ghost var line, data := received, packetData[..];
      DataGrows(line, frameAt, Expected(), data, packetPos, b);
      Arrive(b);
      packetData[packetPos] := b;
      assert packetData[..] == data[packetPos := b];
      packetPos := packetPos + 1;
      assert packetData[..packetPos] == data[..packetPos - 1] + [b];
      if packetPos >= packetSize { state := Crc0; }
    }

    method RxCrc0(b: Byte)
      requires Valid() && state == Crc0
      modifies this
      ensures lastEvent == old(lastEvent)
      ensures Valid() && received == old(received) + [b] && delivered == old(delivered) && sent == old(sent)
      ensures state == Crc1 && crc == 256 * b
      ensures blockNum == old(blockNum) && errorCount == old(errorCount)
      ensures packetSize == old(packetSize) && repeating == old(repeating)
    {
      Arrive(b);
      crc := 256 * b;
      state := Crc1;
    }

    /** The CRC of the packet data, by the source's loop. */
    method DataCrc() returns (c: Half)
      requires packetData.Length == 1024 && packetSize <= 1024
      ensures c == Crc(0, packetData[..packetSize])
    {
      c := 0;
      var i := 0;
      while i < packetSize
        invariant 0 <= i <= packetSize && c == Crc(0, packetData[..i])
      {
        c := ExtendByte(c, packetData[i]);
        assert packetData[..i + 1][..i] == packetData[..i];
        i := i + 1;
      }
    }

    method RxCrc1(b: Byte)
      requires Valid() && state == Crc1
      modifies this
      ensures lastEvent == old(lastEvent)
      ensures Valid() && received == old(received) + [b] && delivered == old(delivered)
      ensures packetSize == old(packetSize) && repeating == old(repeating) && blockNum == old(blockNum)
      ensures var good := Crc(0, old(packetData[..packetSize])) == old(crc) + b;
        && state == (if good && !repeating then ProcessPacket else Soh)
        && sent == SentIf(old(sent), !good, NACK)
        && errorCount == (if good then old(errorCount) else (old(errorCount) + 1) % WORD)
    {
      ghost var hi := crc;
      var good := CheckCrc(b);
      if !good {
        NextWord(Count(sent, NACK));
        errorCount := (errorCount + 1) % WORD;
        state := Soh;
        Tx(NACK);
      } else if repeating {
        state := Soh;
      } else {
        Complete(hi, b);
      }
    }

    method CheckCrc(b: Byte) returns (good: bool)
      requires Valid() && state == Crc1
      modifies this`received, this`crc
      ensures received == old(received) + [b] && Settled()
      ensures good == (Crc(0, packetData[..packetSize]) == old(crc) + b)
    {
      Arrive(b);
      crc := MergeLow(crc, b);
      var c := DataCrc();
      good := c == crc;
    }

    /** The frame is complete and right. */
    method Complete(ghost hi: Half, ghost b: Byte)
      requires state == Crc1 && Settled() && !repeating && InOrder(delivered, frameAt)
      requires |received| > 0 && received[|received| - 1] == b
      requires FrameSoFar(Crc1, received[..|received| - 1], frameAt, Expected(), packetSize, packetPos,
                          packetData[..], hi)
      requires Crc(0, packetData[..packetSize]) == hi + b
      modifies this`state
      ensures Valid() && state == ProcessPacket
    {
      state := ProcessPacket;
      var n := packetSize;
      assert packetData[..][..n] == packetData[..n];
      ghost var was := received[..|received| - 1];
      assert received == was + [b];
      WholeFrame(received, was, frameAt, Expected(), packetData[..n], hi, b);
    }

    /** `crc |= byte`. */
    method MergeLow(hi: Half, b: Byte) returns (c: Half)
      requires hi % 256 == 0
      ensures c == hi + b
    {
      assert Bits.Pow2(8) == 256;
      Bits.OrApart(hi / 256, b, 8);
      c := Bits.Or(hi, b);
    }

    /** One byte from the line; true when a packet is ready. SOH is 1, STX 2 and EOT 4; an EOT between frames is
        acknowledged (6), and a frame whose CRC is not that of its data is refused (21) and counted. */
    method RxByte(b: Byte) returns (ready: bool)
      requires Valid()
      modifies this, packetData
      ensures Valid() && received == old(received) + [b] && delivered == old(delivered) && blockNum == old(blockNum)
      ensures ready == (state == ProcessPacket) && lastEvent == old(lastEvent)
      ensures old(state) == Start || old(state) == Soh ==>
        state == if b == 1 || b == 2 then BlockNum else if b == 4 then Successful else old(state)
      ensures old(state) == BlockNum ==>
        state == if b == (blockNum + 1) % 256 || b == blockNum % 256 then BlockNeg
                 else if b == 1 || b == 2 then BlockNum else Soh
      ensures old(state) == BlockNeg ==>
        state == if b == 255 - (if repeating then blockNum else blockNum + 1) % 256 then Data
                 else if b == 1 || b == 2 then BlockNum else Soh
      ensures old(state) == Data ==> state == if packetPos >= packetSize then Crc0 else Data
      ensures old(state) == Crc0 ==> state == Crc1
      ensures old(state) == Crc1 ==>
        packetSize <= 1024
        && state == if Crc(0, packetData[..packetSize]) == old(crc) + b && !repeating then ProcessPacket else Soh
      ensures old(state) == ProcessPacket || old(IsDone()) ==> state == old(state)
      ensures var ended := (old(state) == Start || old(state) == Soh) && b == 4;
        var bad := old(state) == Crc1 && Crc(0, packetData[..packetSize]) != old(crc) + b;
        && sent == SentIf(SentIf(old(sent), ended, 6), bad, 21)
        && errorCount == if bad then (old(errorCount) + 1) % 4294967296 else old(errorCount)
      ensures packetSize == if old(state) != Start && old(state) != Soh then old(packetSize)
                            else if b == 1 then 128 else if b == 2 then 1024 else old(packetSize)
      ensures old(state) != BlockNum ==> repeating == old(repeating)
      ensures old(state) == BlockNum && state == BlockNeg ==> repeating == (b != (blockNum + 1) % 256)
      ensures old(state) == BlockNeg && state == Data ==> packetPos == 0
      ensures old(state) == Data ==>
        packetPos == old(packetPos) + 1 && packetData[..packetPos] == old(packetData[..packetPos]) + [b]
      ensures old(state) != Data ==> packetData[..] == old(packetData[..])
      ensures old(state) == Crc0 ==> crc == 256 * b
    {
      match state {
        case Start => RxStart(b);
        case Soh => RxStart(b);
        case BlockNum => RxBlockNum(b);
        case BlockNeg => RxBlockNeg(b);
        case Data => RxData(b);
        case Crc0 => RxCrc0(b);
        case Crc1 => RxCrc1(b);
        case ProcessPacket => Ignore(b);
        case Successful => Ignore(b);
        case Failure => Ignore(b);
      }
      ready := state == ProcessPacket;
    }

    ghost method Ignore(b: Byte)
      requires Valid() && (state == ProcessPacket || state == Successful || state == Failure)
      modifies this`received
      ensures Valid() && received == old(received) + [b]
    {
      Arrive(b);
      if state == ProcessPacket {
        FrameStays(old(received), [b], frameAt, Expected(), packetData[..][..packetSize]);
      }
    }

    // ---------------------------------------------------------------- process

    predicate IsDone()
      reads this
    {
      state == Successful || state == Failure
    }

    /** Repeats the opening 'C' while nothing has arrived. */
    method Ping(ms: int)
      requires Valid() && !IsDone()
      modifies this`sent, this`lastEvent
      ensures Valid()
      ensures var due := state == Start && ms - old(lastEvent) > 500;
        && sent == SentIf(old(sent), due, PING)
        && lastEvent == (if due then ms else old(lastEvent))
    {
      if state == Start && ms - lastEvent > 500 {
        Tx(PING);
        lastEvent := ms;
      }
    }

    /** Gives up on the current frame, even a complete one, when nothing happened for too long. */
    method TimeOut(ms: int)
      requires Valid() && !IsDone()
      modifies this`sent, this`lastEvent, this`state, this`errorCount
      ensures Valid() && !IsDone()
      ensures var late := ms - old(lastEvent) > PACKET_TIMEOUT;
        && sent == SentIf(old(sent), late, NACK)
        && state == (if late then Soh else old(state))
        && errorCount == (if late then (old(errorCount) + 1) % WORD else old(errorCount))
        && lastEvent == (if late then ms else old(lastEvent))
    {
      if ms - lastEvent > PACKET_TIMEOUT {
        NextWord(Count(sent, NACK));
        errorCount := (errorCount + 1) % WORD;
        state := Soh;
        Tx(NACK);
        lastEvent := ms;
      }
    }

    method GiveUp(ms: int)
      requires Valid() && !IsDone()
      modifies this`sent, this`lastEvent, this`state
      ensures Valid()
      ensures var failed := errorCount >= MAX_ERRORS;
        && sent == SentIf(old(sent), failed, CAN)
        && state == (if failed then Failure else old(state))
        && lastEvent == (if failed then ms else old(lastEvent))
    {
      if errorCount >= MAX_ERRORS {
        state := Failure;
        Tx(CAN);
        lastEvent := ms;
      }
    }

    /** Hands out the packet and acknowledges it. */
    method Deliver(ms: int) returns (n: nat, packet: seq<Byte>, block: Word)
      requires Valid() && state == ProcessPacket
      modifies this`sent, this`lastEvent, this`state, this`blockNum, this`delivered
      ensures Valid() && state == Soh && sent == Sent(old(sent), ACK)
      ensures n == |packet| == packetSize && PacketSize(n) && block == old(blockNum) == |old(delivered)| % WORD
      ensures packet == packetData[..packetSize]
      ensures delivered == old(delivered) + [Packet(block, packet, frameAt)]
      ensures blockNum == (old(blockNum) + 1) % WORD && lastEvent == ms
    {
      lastEvent := ms;
      packet := packetData[..packetSize];
      block := blockNum;
      assert packetData[..][..packetSize] == packet;
      NumberWraps(|delivered|);
      ghost var p := Packet(block, packet, frameAt);
      OneMore(received, delivered, p);
      delivered := delivered + [p];
      blockNum := (blockNum + 1) % WORD;
      state := Soh;
      Tx(ACK);
      n := packetSize;
    }

    /** The timers and the error budget. */
    method CheckTimers(now: int)
      requires Valid() && !IsDone()
      modifies this`sent, this`lastEvent, this`state, this`errorCount
      ensures Valid()
      ensures var ms := if now == 0 then 1 else now;
        var waited := if old(lastEvent) == 0 then 0 else ms - old(lastEvent);
        var ping, late := old(state) == Start && waited > 500, old(state) != Start && waited > 1000;
        && errorCount == (if late then (old(errorCount) + 1) % 4294967296 else old(errorCount))
        && state == (if errorCount >= 100 then Failure else if late then Soh else old(state))
        && sent == SentIf(SentIf(SentIf(old(sent), ping, 67), late, 21), errorCount >= 100, 24)
        && lastEvent == (if old(lastEvent) == 0 || ping || late || errorCount >= 100 then ms else old(lastEvent))
    {
      var ms := if now == 0 then 1 else now;
      if lastEvent == 0 { lastEvent := ms; }
      Ping(ms);
      TimeOut(ms);
      GiveUp(ms);
    }

    /** Called from time to time: handles the timers and the error budget, and hands out a packet that is
        ready and not too late. More than half a second in the starting state sends a 'C' (67); more than a second
        in any other sends a NAK (21) and counts an error; from 100 errors on a CAN (24) ends it; a packet handed
        out is acknowledged (6). A time of 0 is taken for 1, and the clock starts with the first call. */
    method Process(now: int) returns (n: nat, packet: seq<Byte>, block: Word)
      requires Valid()
      modifies this`sent, this`lastEvent, this`state, this`errorCount, this`blockNum, this`delivered
      ensures Valid() && n == |packet|
      ensures n == 0 ==> delivered == old(delivered) && blockNum == old(blockNum)
      ensures n > 0 ==>
        old(state) == ProcessPacket && delivered == old(delivered) + [Packet(block, packet, frameAt)]
        && packet == packetData[..packetSize] && block == |old(delivered)| % WORD
      ensures old(IsDone()) ==> n == 0 && state == old(state) && sent == old(sent) && errorCount == old(errorCount)
      ensures !old(IsDone()) ==>
        var ms := if now == 0 then 1 else now;
        var waited := if old(lastEvent) == 0 then 0 else ms - old(lastEvent);
        var ping, late := old(state) == Start && waited > 500, old(state) != Start && waited > 1000;
        && errorCount == (if late then (old(errorCount) + 1) % 4294967296 else old(errorCount))
        && (n > 0 <==> old(state) == ProcessPacket && !late && errorCount < 100)
        && state == (if errorCount >= 100 then Failure else if late || n > 0 then Soh else old(state))
        && sent == SentIf(SentIf(SentIf(SentIf(old(sent), ping, 67), late, 21), errorCount >= 100, 24), n > 0, 6)
        && lastEvent == (if old(lastEvent) == 0 || ping || late || errorCount >= 100 || n > 0
                         then ms else old(lastEvent))
    {
      n, packet, block := 0, [], 0;
      if IsDone() { return; }
      CheckTimers(now);
      if state != ProcessPacket { return; }
      n, packet, block := Deliver(if now == 0 then 1 else now);
    }
  }

  /** One more data byte, on the line and in the packet. */
  lemma DataGrows(r: seq<Byte>, at: nat, num: Byte, data: seq<Byte>, pos: nat, b: Byte)
    requires at <= |r| && pos < |data| && r[at..] == [num, Complement(num)] + data[..pos]
    ensures (r + [b])[at..] == [num, Complement(num)] + data[pos := b][..pos + 1]
  {
    assert (r + [b])[at..] == r[at..] + [b];
  }

  lemma WholeFrame(r: seq<Byte>, was: seq<Byte>, at: nat, num: Byte, data: seq<Byte>, hi: Half, b: Byte)
    requires r == was + [b] && 1 <= at <= |was| && (r[at - 1] == SOH || r[at - 1] == STX) && PacketSize(|data|)
    requires hi % 256 == 0 && was[at..] == [num, Complement(num)] + data + [hi / 256]
    requires Crc(0, data) == hi + b
    ensures FrameAt(r, at, num, data)
  {
    assert (hi + b) / 256 == hi / 256 && (hi + b) % 256 == b;
    assert r[at..] == was[at..] + [b];
    assert r[at..at + |data| + 4] == r[at..];
  }
}
