/** What the bytes on an XMODEM line mean: frames within the bytes received, control bytes within those sent. */
module XmodemTrace {
  import opened Bits
  import opened Crc16

  const SOH: Byte := 0x01
  const STX: Byte := 0x02
  const EOT: Byte := 0x04
  const ACK: Byte := 0x06
  const NACK: Byte := 0x15
  const CAN: Byte := 0x18
  const PING: Byte := 67     // 'C'

  const WORD := 0x1_0000_0000

  /** The bytes given to the transmitter, latest last. */
  datatype Line = Silent | Sent(before: Line, last: Byte)

  /** Number of bytes `b` sent. */
  function Count(l: Line, b: Byte): (n: nat) {
    match l
    case Silent => 0
    case Sent(k, x) => Count(k, b) + (if x == b then 1 else 0)
  }

  /** `b` is sent if `due`. */
  function SentIf(l: Line, due: bool, b: Byte): (r: Line) {
    if due then Sent(l, b) else l
  }

  /** Control bytes sent so far: an ACK for each of `n` packets and for the end of the transfer, a NAK for
      each error, a CAN on failure. */
  ghost predicate Tally(l: Line, n: nat, ended: bool, failed: bool, errors: Word) {
    && Count(l, ACK) == n + (if ended then 1 else 0)
    && errors == Count(l, NACK) % WORD
    && Count(l, CAN) == (if failed then 1 else 0)
  }

  lemma NextWord(n: nat)
    ensures (n % WORD + 1) % WORD == (n + 1) % WORD
  {}

  /** The number byte of block `k` (blocks count from 0, frames from 1), and of the block before it. */
  function NumberOf(k: nat): (b: Byte) {
    (k + 1) % 256
  }

  /** The complement that follows the number. */
  function Complement(b: Byte): (r: Byte) {
    255 - b
  }

  predicate PacketSize(n: int) {
    n == 128 || n == 1024
  }

  /** The bytes of a frame after its opening byte. */
  function FrameBytes(num: Byte, data: seq<Byte>): (x: seq<Byte>)
    ensures |x| == |data| + 4
  {
    [num, Complement(num)] + data + [Crc(0, data) / 256, Crc(0, data) % 256]
  }

  /** A frame with this number and data, its complement and CRC right, is in `s` from position `at` on,
      just after an SOH or STX. */
  predicate FrameAt(s: seq<Byte>, at: nat, num: Byte, data: seq<Byte>) {
    && 1 <= at && at + |data| + 4 <= |s| && PacketSize(|data|)
    && (s[at - 1] == SOH || s[at - 1] == STX)
    && s[at..at + |data| + 4] == FrameBytes(num, data)
  }

  lemma FrameStays(s: seq<Byte>, t: seq<Byte>, at: nat, num: Byte, data: seq<Byte>)
    requires FrameAt(s, at, num, data)
    ensures FrameAt(s + t, at, num, data)
  {
    var n := at + |data| + 4;
    assert (s + t)[at..n] == s[at..n];
  }

  /** A packet handed to the application: the block number reported, the data, and where its frame was. */
  datatype Packet = Packet(block: Word, data: seq<Byte>, at: nat)

  ghost predicate Genuine(s: seq<Byte>, p: Packet, k: nat) {
    p.block == k % WORD && FrameAt(s, p.at, NumberOf(k), p.data)
  }

  /** The k-th packet is reported as block k and is the data of a frame numbered k+1. */
  ghost predicate AllGenuine(s: seq<Byte>, ps: seq<Packet>) {
    forall k {:trigger Genuine(s, ps[k], k)} :: 0 <= k < |ps| ==> Genuine(s, ps[k], k)
  }

  /** Frames of successive packets follow each other on the line. */
  ghost predicate InOrder(ps: seq<Packet>, limit: int) {
    && (forall k :: 0 <= k < |ps| - 1 ==> Follows(ps, k))
    && (|ps| > 0 ==> EndOf(ps[|ps| - 1]) <= limit)
  }

  predicate Follows(ps: seq<Packet>, k: nat) {
    k + 1 < |ps| && EndOf(ps[k]) <= ps[k + 1].at
  }

  function EndOf(p: Packet): (n: nat) {
    p.at + |p.data| + 4
  }

  lemma MoreBytes(s: seq<Byte>, t: seq<Byte>, ps: seq<Packet>)
    requires AllGenuine(s, ps)
    ensures AllGenuine(s + t, ps)
  {
    forall k | 0 <= k < |ps| ensures Genuine(s + t, ps[k], k) {
      assert Genuine(s, ps[k], k);
      FrameStays(s, t, ps[k].at, NumberOf(k), ps[k].data);
    }
  }

  lemma OneMore(s: seq<Byte>, ps: seq<Packet>, p: Packet)
    requires AllGenuine(s, ps) && Genuine(s, p, |ps|) && InOrder(ps, p.at)
    ensures AllGenuine(s, ps + [p]) && InOrder(ps + [p], EndOf(p))
  {
    var qs := ps + [p];
    forall k | 0 <= k < |qs| ensures Genuine(s, qs[k], k) {
      if k < |ps| { assert Genuine(s, ps[k], k); }
    }
    forall k | 0 <= k < |ps| ensures Follows(qs, k) {
      if k < |ps| - 1 { assert Follows(ps, k); }
    }
  }

  lemma NumberWraps(k: nat)
    ensures (k % WORD + 1) % 256 == NumberOf(k)
    ensures (k % WORD + 1) % WORD == (k + 1) % WORD
  {
    var q := k / WORD;
    assert k + 1 == 256 * (q * 0x100_0000) + (k % WORD + 1);
    assert k + 1 == WORD * q + (k % WORD + 1);
  }
}
