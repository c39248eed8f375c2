/** The receiver at the end of a line: a stop-and-wait sender that goes on to the next block only when
    acknowledged, over a channel that keeps the order but may lose frames and acknowledgements and may damage
    frames in a way the CRC shows. Whatever happens, the packets delivered are the first blocks sent. */
module XmodemLink {
  import opened Bits
  import opened Crc16
  import opened XmodemTrace
  import opened Xmodem

  /** A frame on its way: which block it carries, and its data and CRC bytes as they will arrive. */
  datatype Wire = Frame(block: nat, data: seq<Byte>, hi: Byte, lo: Byte) | End

  predicate Intact(w: Wire)
  {
    w.Frame? && Crc(0, w.data) == 256 * w.hi + w.lo
  }

  /** The bytes of a frame, opened by SOH or STX as its size demands. */
  function Bytes(w: Wire): (x: seq<Byte>) {
    if w.End? then [EOT]
    else [if |w.data| == 128 then SOH else STX, NumberOf(w.block), Complement(NumberOf(w.block))]
         + w.data + [w.hi, w.lo]
  }

  function Clean(k: nat, data: seq<Byte>): (w: Wire)
    ensures Intact(w) && w.block == k && w.data == data
  {
    Frame(k, data, Crc(0, data) / 256, Crc(0, data) % 256)
  }

  // ---------------------------------------------------------------- a whole frame through the byte machine

  predicate Idle(s: State) {
    s == Start || s == Soh || s == Successful || s == Failure
  }

  /** Feeding the opening bytes of a frame the receiver knows the number of. */
  method FeedHeader(r: Server, opener: Byte, num: Byte)
    requires r.Valid() && (r.state == Start || r.state == Soh) && (opener == SOH || opener == STX)
    requires num == (r.blockNum + 1) % 256 || num == r.blockNum % 256
    modifies r, r.packetData
    ensures r.Valid() && r.state == Data && r.packetPos == 0
    ensures r.packetSize == (if opener == SOH then 128 else 1024) && r.repeating == (num != (r.blockNum + 1) % 256)
    ensures r.sent == old(r.sent) && r.delivered == old(r.delivered) && r.blockNum == old(r.blockNum)
  {
    var ready := r.RxByte(opener);
    ready := r.RxByte(num);
    assert r.Expected() == num;
    ready := r.RxByte(Complement(num));
  }

  method FeedData(r: Server, data: seq<Byte>)
    requires r.Valid() && r.state == Data && r.packetPos == 0 && |data| == r.packetSize
    modifies r, r.packetData
    ensures r.Valid() && r.state == Crc0 && r.packetData[..r.packetSize] == data
    ensures r.packetSize == old(r.packetSize) && r.repeating == old(r.repeating)
    ensures r.sent == old(r.sent) && r.delivered == old(r.delivered) && r.blockNum == old(r.blockNum)
  {
    var i := 0;
    while i < |data|
      invariant 0 <= i <= |data| && r.Valid() && r.packetPos == i && r.packetData[..i] == data[..i]
      invariant r.state == (if i < |data| then Data else Crc0)
      invariant r.packetSize == |data| && r.repeating == old(r.repeating)
      invariant r.sent == old(r.sent) && r.delivered == old(r.delivered) && r.blockNum == old(r.blockNum)
    {
      var ready := r.RxByte(data[i]);
      i := i + 1;
    }
    assert data[..|data|] == data;
  }

  method FeedCrc(r: Server, hi: Byte, lo: Byte)
    requires r.Valid() && r.state == Crc0
    modifies r, r.packetData
    ensures r.Valid() && r.packetSize == old(r.packetSize) && r.repeating == old(r.repeating)
    ensures r.packetSize <= 1024 && r.packetData[..] == old(r.packetData[..])
    ensures var good := Crc(0, old(r.packetData[..r.packetSize])) == 256 * hi + lo;
      r.state == (if good && !r.repeating then ProcessPacket else Soh) && r.sent == SentIf(old(r.sent), !good, NACK)
    ensures r.delivered == old(r.delivered) && r.blockNum == old(r.blockNum)
  {
    ghost var n := r.packetSize;
    var ready := r.RxByte(hi);
    assert r.packetData[..n] == r.packetData[..][..n];
    assert old(r.packetData[..n]) == old(r.packetData[..])[..n];
    ready := r.RxByte(lo);
  }

  /** A frame with the next number is accepted if intact; one with the previous number is passed over in
      silence if intact; either is refused with a NAK if damaged. */
  method FeedFrame(r: Server, w: Wire)
    requires r.Valid() && (r.state == Start || r.state == Soh) && w.Frame? && PacketSize(|w.data|)
    requires NumberOf(w.block) == (r.blockNum + 1) % 256 || NumberOf(w.block) == r.blockNum % 256
    modifies r, r.packetData
    ensures r.Valid() && r.delivered == old(r.delivered) && r.blockNum == old(r.blockNum)
    ensures r.state == if Intact(w) && NumberOf(w.block) == (r.blockNum + 1) % 256 then ProcessPacket else Soh
    ensures r.sent == SentIf(old(r.sent), !Intact(w), NACK)
    ensures r.packetSize == |w.data| && r.packetSize <= 1024 && r.packetData[..r.packetSize] == w.data
  {
    FeedHeader(r, if |w.data| == 128 then SOH else STX, NumberOf(w.block));
    FeedData(r, w.data);
    FeedCrc(r, w.hi, w.lo);
    assert r.packetData[..r.packetSize] == r.packetData[..][..r.packetSize];
  }

  method FeedIdle(r: Server, x: seq<Byte>)
    requires r.Valid() && (r.state == Successful || r.state == Failure)
    modifies r, r.packetData
    ensures r.Valid() && r.state == old(r.state) && r.sent == old(r.sent)
    ensures r.delivered == old(r.delivered)
  {
    for i := 0 to |x|
      invariant r.Valid() && r.state == old(r.state) && r.sent == old(r.sent) && r.delivered == old(r.delivered)
    {
      var ready := r.RxByte(x[i]);
    }
  }

  // ---------------------------------------------------------------- the line

  ghost predicate Good(blocks: seq<seq<Byte>>) {
    forall k :: 0 <= k < |blocks| ==> PacketSize(|blocks[k]|)
  }

  /** A frame in the channel carries the block just delivered, or the one being waited for, and if intact that
      block's bytes. */
  ghost predicate WireOk(w: Wire, blocks: seq<seq<Byte>>, acked: nat, n: nat) {
    match w
    case End => acked == |blocks|
    case Frame(j, data, _, _) =>
      n <= j + 1 && j <= acked && j < |blocks| && PacketSize(|data|) && (Intact(w) ==> data == blocks[j])
  }

  ghost predicate ChannelOk(c: seq<Wire>, blocks: seq<seq<Byte>>, acked: nat, n: nat) {
    forall i {:trigger c[i]} :: 0 <= i < |c| ==> WireOk(c[i], blocks, acked, n)
  }

  function IndexOf(w: Wire, last: nat): (j: nat) {
    if w.End? then last else w.block
  }

  /** Blocks in the channel never go backwards. */
  ghost predicate Ordered(c: seq<Wire>, last: nat) {
    forall i, j {:trigger c[i], c[j]} :: 0 <= i < j < |c| ==> IndexOf(c[i], last) <= IndexOf(c[j], last)
  }

  /** The packets delivered are the first blocks, each under its own number. */
  ghost predicate Prefix(ps: seq<Packet>, blocks: seq<seq<Byte>>) {
    |ps| <= |blocks|
    && forall k {:trigger ps[k]} :: 0 <= k < |ps| ==> ps[k].data == blocks[k] && ps[k].block == k % WORD
  }

  /** The counting behind the numbering: the sender is at the block the receiver waits for, or one behind with
      at most one acknowledgement under way. */
  ghost predicate Window(acked: nat, acks: nat, n: nat, total: nat) {
    acked <= n <= acked + 1 && n <= total && (acked < total ==> acked + acks <= n)
  }

  ghost predicate LineOk(blocks: seq<seq<Byte>>, acked: nat, acks: nat, c: seq<Wire>, ps: seq<Packet>) {
    && Good(blocks) && Window(acked, acks, |ps|, |blocks|)
    && ChannelOk(c, blocks, acked, |ps|) && Ordered(c, |blocks|)
    && Prefix(ps, blocks)
  }

  datatype Event =
    | SendEvent                                                         // the sender sends its current block again
    | LoseEvent(at: nat)                                                // a frame is lost
    | DamageEvent(at: nat, data: seq<Byte>, hi: Byte, lo: Byte)         // a frame is damaged
    | ReceiveEvent(now: int)                                            // the next frame arrives
    | TickEvent(now: int)                                               // time passes at the receiver
    | AckEvent                                                          // an acknowledgement arrives
    | LoseAckEvent                                                      // one is lost

  lemma Sending(blocks: seq<seq<Byte>>, acked: nat, acks: nat, c: seq<Wire>, ps: seq<Packet>)
    requires LineOk(blocks, acked, acks, c, ps)
    ensures acked <= |blocks|
    ensures LineOk(blocks, acked, acks, c + [Current(blocks, acked)], ps)
  {
    var w := Current(blocks, acked);
    var d := c + [w];
    assert WireOk(w, blocks, acked, |ps|);
    forall i, j | 0 <= i < j < |d| ensures IndexOf(d[i], |blocks|) <= IndexOf(d[j], |blocks|) {
      assert d[i] == c[i] && WireOk(c[i], blocks, acked, |ps|);
    }
  }

  lemma Losing(blocks: seq<seq<Byte>>, acked: nat, acks: nat, c: seq<Wire>, ps: seq<Packet>, at: nat)
    requires LineOk(blocks, acked, acks, c, ps) && at < |c|
    ensures LineOk(blocks, acked, acks, c[..at] + c[at + 1..], ps)
  {}

  lemma Damaging(blocks: seq<seq<Byte>>, acked: nat, acks: nat, c: seq<Wire>, ps: seq<Packet>, at: nat, w: Wire)
    requires LineOk(blocks, acked, acks, c, ps) && at < |c| && c[at].Frame?
    requires w.Frame? && w.block == c[at].block && |w.data| == |c[at].data| && !Intact(w)
    ensures LineOk(blocks, acked, acks, c[at := w], ps)
  {
    assert WireOk(c[at], blocks, acked, |ps|);
  }

  lemma Acknowledged(blocks: seq<seq<Byte>>, acked: nat, acks: nat, c: seq<Wire>, ps: seq<Packet>)
    requires LineOk(blocks, acked, acks, c, ps) && acks > 0
    ensures LineOk(blocks, if acked < |blocks| then acked + 1 else acked, acks - 1, c, ps)
  {
    var next := if acked < |blocks| then acked + 1 else acked;
    forall i | 0 <= i < |c| ensures WireOk(c[i], blocks, next, |ps|) {
      assert WireOk(c[i], blocks, acked, |ps|);
    }
  }

  /** The head of the channel is the block waited for or the one before it, and its number says which. */
  lemma HeadNumber(blocks: seq<seq<Byte>>, acked: nat, acks: nat, c: seq<Wire>, ps: seq<Packet>)
    requires LineOk(blocks, acked, acks, c, ps) && c != [] && c[0].Frame?
    ensures PacketSize(|c[0].data|) && (c[0].block == |ps| || c[0].block + 1 == |ps|)
    ensures var b := |ps| % WORD;
      && (NumberOf(c[0].block) == (b + 1) % 256 <==> c[0].block == |ps|)
      && (c[0].block != |ps| ==> NumberOf(c[0].block) == b % 256)
  {
    assert WireOk(c[0], blocks, acked, |ps|);
    NumberWraps(|ps|);
    LowByte(|ps|);
  }

  lemma LowByte(n: nat)
    ensures (n % WORD) % 256 == n % 256 && (n + 1) % 256 != n % 256
  {
    var q := n / WORD;
    assert n == 256 * (q * 0x100_0000) + n % WORD;
  }

  lemma Arrived(blocks: seq<seq<Byte>>, acked: nat, acks: nat, c: seq<Wire>, ps: seq<Packet>)
    requires LineOk(blocks, acked, acks, c, ps) && c != []
    ensures LineOk(blocks, acked, acks, c[1..], ps)
  {
    assert c[..0] + c[1..] == c[1..];
    Losing(blocks, acked, acks, c, ps, 0);
  }

  /** Delivering the intact head moves the receiver on; what is left in the channel is not older. */
  lemma Delivered(blocks: seq<seq<Byte>>, acked: nat, acks: nat, c: seq<Wire>, ps: seq<Packet>, p: Packet)
    requires LineOk(blocks, acked, acks, c, ps) && c != [] && Intact(c[0]) && c[0].block == |ps|
    requires p.data == c[0].data && p.block == |ps| % WORD
    ensures LineOk(blocks, acked, acks + 1, c[1..], ps + [p])
  {
    assert WireOk(c[0], blocks, acked, |ps|);
    var d, n := c[1..], |ps| + 1;
    forall i | 0 <= i < |d| ensures WireOk(d[i], blocks, acked, n) {
      assert WireOk(c[i + 1], blocks, acked, |ps|);
      assert IndexOf(c[0], |blocks|) <= IndexOf(c[i + 1], |blocks|);
    }
    forall i, j | 0 <= i < j < |d| ensures IndexOf(d[i], |blocks|) <= IndexOf(d[j], |blocks|) {
      assert IndexOf(c[i + 1], |blocks|) <= IndexOf(c[j + 1], |blocks|);
    }
  }

  /** Both ends and what is between them. */
  datatype Snap = Snap(acked: nat, acks: nat, channel: seq<Wire>, delivered: seq<Packet>, state: State, sent: Line)

  /** What the sender sends: the block it is at, or the end. */
  function Current(blocks: seq<seq<Byte>>, acked: nat): (w: Wire) {
    if acked < |blocks| then Clean(acked, blocks[acked]) else End
  }

  /** The frame is the one the receiver waits for. */
  predicate Wanted(w: Wire, delivered: seq<Packet>) {
    Intact(w) && w.block == |delivered|
  }

  /** What the arrival of the head of the channel does. A frame that is wanted is delivered and acknowledged,
      unless the receiver has just given up or lost patience; no other frame is. */
  predicate Arrives(s: Snap, t: Snap) {
    s.channel != [] && t.channel == s.channel[1..] && t.acked == s.acked
    && var w := s.channel[0];
    if s.state == Successful || s.state == Failure then
      t.acks == s.acks && t.delivered == s.delivered && t.state == s.state && t.sent == s.sent
    else if w.End? then
      t.acks == s.acks + 1 && t.delivered == s.delivered && t.state == Successful && t.sent == Sent(s.sent, ACK)
    else if |t.delivered| > |s.delivered| then
      Wanted(w, s.delivered) && t.acks == s.acks + 1 && t.state == Soh
      && |t.delivered| == |s.delivered| + 1 && t.delivered[..|s.delivered|] == s.delivered
      && t.delivered[|s.delivered|].data == w.data && t.delivered[|s.delivered|].block == w.block % WORD
    else
      t.acks == s.acks && t.delivered == s.delivered && (t.state == Soh || t.state == Failure)
      && (Wanted(w, s.delivered) ==> t.state == Failure || Count(t.sent, NACK) == Count(s.sent, NACK) + 1)
  }

  /** What an event changes. */
  predicate Happens(blocks: seq<seq<Byte>>, e: Event, s: Snap, t: Snap) {
    match e
    case SendEvent => t == s.(channel := s.channel + [Current(blocks, s.acked)])
    case LoseEvent(at) => t == if at < |s.channel| then s.(channel := s.channel[..at] + s.channel[at + 1..]) else s
    case DamageEvent(at, data, hi, lo) =>
      t == if Damages(s.channel, at, data, hi, lo)
           then s.(channel := s.channel[at := Frame(s.channel[at].block, data, hi, lo)]) else s
    case ReceiveEvent(_) => if s.channel == [] then t == s else Arrives(s, t)
    case TickEvent(_) => t == s.(state := t.state, sent := t.sent)
    case AckEvent =>
      t == if s.acks > 0 then s.(acked := if s.acked < |blocks| then s.acked + 1 else s.acked, acks := s.acks - 1)
           else s
    case LoseAckEvent => t == if s.acks > 0 then s.(acks := s.acks - 1) else s
  }

  /** The damage shows. */
  predicate Damages(c: seq<Wire>, at: nat, data: seq<Byte>, hi: Byte, lo: Byte) {
    at < |c| && c[at].Frame? && |data| == |c[at].data| && !Intact(Frame(c[at].block, data, hi, lo))
  }

  class Link {
    const blocks: seq<seq<Byte>>
    const receiver: Server
    var acked: nat            // blocks the sender has seen acknowledged
    var acks: nat             // acknowledgements under way
    var channel: seq<Wire>

    ghost predicate Valid()
      reads this, receiver, receiver.packetData
    {
      && receiver.Valid() && Idle(receiver.state)
      && LineOk(blocks, acked, acks, channel, receiver.delivered)
      && (receiver.state == Successful ==> acked == |blocks|)
    }

    ghost function Snapshot(): (s: Snap)
      reads this, receiver
    {
      Snap(acked, acks, channel, receiver.delivered, receiver.state, receiver.sent)
    }

    constructor (data: seq<seq<Byte>>, r: Server)
      requires Good(data) && r.Valid() && r.state == Start && r.delivered == []
      ensures Valid() && blocks == data && receiver == r
    {
      blocks, receiver, acked, acks, channel := data, r, 0, 0, [];
    }

    /** The receiver looks at its timers; a packet that is ready is handed out and acknowledged. */
    method Tick(now: int)
      requires Valid()
      modifies receiver
      ensures Valid() && receiver.delivered == old(receiver.delivered)
      ensures acked == old(acked) && acks == old(acks) && channel == old(channel)
    {
      var n, packet, block := receiver.Process(now);
    }

    /** The next frame arrives at the receiver. */
    method Receive(now: int)
      requires Valid() && channel != []
      modifies this, receiver, receiver.packetData
      ensures Valid() && Arrives(old(Snapshot()), Snapshot())
    {
      var w := channel[0];
      if receiver.state == Successful || receiver.state == Failure {
        FeedIdle(receiver, Bytes(w));
        Arrived(blocks, acked, acks, channel, receiver.delivered);
        channel := channel[1..];
      } else if w.End? {
        ReceiveEnd();
      } else {
        ReceiveFrame(w, now);
      }
    }

    /** End of transmission: the receiver is done, and has everything. */
    method ReceiveEnd()
      requires Valid() && channel != [] && channel[0].End? && (receiver.state == Start || receiver.state == Soh)
      modifies this, receiver, receiver.packetData
      ensures Valid() && Arrives(old(Snapshot()), Snapshot())
    {
      assert WireOk(channel[0], blocks, acked, |receiver.delivered|);
      Arrived(blocks, acked, acks, channel, receiver.delivered);
      channel := channel[1..];
      var ready := receiver.RxByte(EOT);
      acks := acks + 1;
    }

    method ReceiveFrame(w: Wire, now: int)
      requires Valid() && channel != [] && channel[0] == w && w.Frame?
      requires (receiver.state == Start || receiver.state == Soh)
      modifies this, receiver, receiver.packetData
      ensures Valid() && Arrives(old(Snapshot()), Snapshot())
    {
      ghost var ps := receiver.delivered;
      HeadNumber(blocks, acked, acks, channel, ps);
      FeedFrame(receiver, w);
      var n, packet, block := receiver.Process(now);
      if n > 0 {
        Delivered(blocks, acked, acks, channel, ps, receiver.delivered[|ps|]);
        acks := acks + 1;
      } else {
        Arrived(blocks, acked, acks, channel, ps);
      }
      channel := channel[1..];
    }

    /** One event, if it can happen. */
    method Happen(e: Event)
      requires Valid()
      modifies this, receiver, receiver.packetData
      ensures Valid() && Happens(blocks, e, old(Snapshot()), Snapshot())
    {
      match e {
        case SendEvent =>
          Sending(blocks, acked, acks, channel, receiver.delivered);
          channel := channel + [Current(blocks, acked)];
        case LoseEvent(at) =>
          if at < |channel| {
            Losing(blocks, acked, acks, channel, receiver.delivered, at);
            channel := channel[..at] + channel[at + 1..];
          }
        case DamageEvent(at, data, hi, lo) => Damage(at, data, hi, lo);
        case ReceiveEvent(now) => if channel != [] { Receive(now); }
        case TickEvent(now) => Tick(now);
        case AckEvent =>
          if acks > 0 {
            Acknowledged(blocks, acked, acks, channel, receiver.delivered);
            acked, acks := if acked < |blocks| then acked + 1 else acked, acks - 1;
          }
        case LoseAckEvent => if acks > 0 { acks := acks - 1; }
      }
    }

    /** Data or CRC bytes change so that the CRC no longer matches. */
    method Damage(at: nat, data: seq<Byte>, hi: Byte, lo: Byte)
      requires Valid()
      modifies this`channel
      ensures Valid() && Happens(blocks, DamageEvent(at, data, hi, lo), old(Snapshot()), Snapshot())
    {
      if Damages(channel, at, data, hi, lo) {
        var w := Frame(channel[at].block, data, hi, lo);
        Damaging(blocks, acked, acks, channel, receiver.delivered, at, w);
        channel := channel[at := w];
      }
    }

    /** Over every run, with each event doing what it should: at all times what is delivered is a prefix of what
        was to be sent, and on success all of it. */
    method Execute(events: seq<Event>) returns (ghost trace: seq<Snap>)
      requires Valid()
      modifies this, receiver, receiver.packetData
      ensures Valid() && IsTrace(blocks, events, trace)
      ensures trace[0] == old(Snapshot()) && trace[|events|] == Snapshot()
    {
      trace := [Snapshot()];
      for i := 0 to |events|
        invariant Valid() && IsTrace(blocks, events[..i], trace)
        invariant trace[0] == old(Snapshot()) && trace[i] == Snapshot()
      {
        Happen(events[i]);
        LongerTrace(blocks, events, i, trace, Snapshot());
        trace := trace + [Snapshot()];
      }
      assert events[..|events|] == events;
    }
  }

  ghost predicate SafeNow(blocks: seq<seq<Byte>>, s: Snap) {
    Prefix(s.delivered, blocks) && (s.state == Successful ==> |s.delivered| == |blocks|)
  }

  ghost predicate IsTrace(blocks: seq<seq<Byte>>, events: seq<Event>, trace: seq<Snap>) {
    && |trace| == |events| + 1
    && (forall i {:trigger trace[i]} :: 0 <= i < |trace| ==> SafeNow(blocks, trace[i]))
    && (forall i {:trigger events[i]} :: 0 <= i < |events| ==> Happens(blocks, events[i], trace[i], trace[i + 1]))
  }

  lemma LongerTrace(blocks: seq<seq<Byte>>, events: seq<Event>, i: nat, trace: seq<Snap>, s: Snap)
    requires i < |events| && IsTrace(blocks, events[..i], trace) && SafeNow(blocks, s)
    requires Happens(blocks, events[i], trace[i], s)
    ensures IsTrace(blocks, events[..i + 1], trace + [s])
  {
    var upTo, t := events[..i + 1], trace + [s];
    forall j | 0 <= j < i + 1 ensures Happens(blocks, upTo[j], t[j], t[j + 1]) {
      if j < i { assert upTo[j] == events[..i][j]; }
    }
  }
}
