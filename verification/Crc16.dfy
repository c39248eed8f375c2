/** The 16-bit CRC of the XMODEM protocol (init/xmodem_server.c, xmodem_server_crc), on numbers below 2^16. */
module Crc16 {
  import opened Bits

  type Half = h: int | 0 <= h < 0x1_0000

  const POLY: Half := 0x1021

  /** One round of the shift loop: `crc << 1` truncated to 16 bits, with the polynomial for a digit shifted out. */
  function Shift(c: Half): (r: Half) {
    if c >= 0x8000 then XorHalf(2 * (c - 0x8000), POLY) else 2 * c
  }

  function Shifts(c: Half, n: nat): (r: Half) {
    if n == 0 then c else Shift(Shifts(c, n - 1))
  }

  function XorHalf(a: Half, b: Half): (r: Half) {
    HalfBound(a, b);
    Xor(a, b)
  }

  lemma HalfBound(a: Half, b: Half)
    ensures Xor(a, b) < 0x1_0000
  {
    Pow2Consts();
    XorBound(a, b, 16);
  }

  function XorByte(a: Byte, b: Byte): (r: Byte) {
    assert Pow2(8) == 256;
    XorBound(a, b, 8);
    Xor(a, b)
  }

  /** Rounds of the shift loop for one byte. */
  const ROUNDS: nat := 8

  /** The CRC extended by one byte. */
  function Extend(crc: Half, b: Byte): (r: Half) {
    Shifts(XorHalf(crc, 256 * b), ROUNDS)
  }

  /** The CRC extended by all bytes of `x`. */
  function Crc(crc: Half, x: seq<Byte>): (r: Half) {
    if x == [] then crc else Extend(Crc(crc, x[..|x| - 1]), x[|x| - 1])
  }

  /** The source's loop. */
  method ExtendByte(crc0: Half, b: Byte) returns (crc: Half)
    ensures crc == Extend(crc0, b)
  {
    crc := XorHalf(crc0, 256 * b);
    var i := ROUNDS;
    while i > 0
      invariant 0 <= i <= ROUNDS && crc == Shifts(XorHalf(crc0, 256 * b), ROUNDS - i)
    {
      crc := OneShift(crc);
      i := i - 1;
    }
  }

  method OneShift(crc0: Half) returns (crc: Half)
    ensures crc == Shift(crc0)
  {
    crc := crc0;
    TopDigitIs(crc);
    if TopDigit(crc) { crc := XorHalf(crc * 2 % 0x1_0000, POLY); } else { crc := crc * 2 % 0x1_0000; }
  }

  /** `crc & 0x8000`. */
  predicate TopDigit(c: Half) {
    And(c, 0x8000) != 0
  }

  lemma TopDigitIs(c: Half)
    ensures TopDigit(c) <==> c >= 0x8000
  {
    TopWidths();
    AndHigh(c, 15, 16, 0x8000);
    DownAligned(c, 15);
    AlignedShr(Down(c, 15), 15);
    var q := Shr(Down(c, 15), 15);
    assert Down(c, 15) == q * 0x8000;
  }

  lemma TopWidths()
    ensures Pow2(15) == 0x8000 && Pow2(16) == 0x1_0000
  {
    Pow2Consts();
  }

  // ---------------------------------------------------------------- linearity

  lemma ShiftLinear(a: Half, b: Half)
    ensures Shift(XorHalf(a, b)) == XorHalf(Shift(a), Shift(b))
  {
    var s, t := if a >= 0x8000 then 1 else 0, if b >= 0x8000 then 1 else 0;
    var x, y := a - s * 0x8000, b - t * 0x8000;
    SplitTop(x, y, s, t);
    Shifted(a, s, x);
    Shifted(b, t, y);
    Shifted(XorHalf(a, b), if s == t then 0 else 1, Xor(x, y));
    Polynomials(x, y, s, t, POLY);
  }

  lemma SplitTop(x: nat, y: nat, s: nat, t: nat)
    requires x < 0x8000 && y < 0x8000 && s <= 1 && t <= 1
    ensures Xor(x + s * 0x8000, y + t * 0x8000) == Xor(x, y) + (if s == t then 0 else 0x8000)
    ensures Xor(x, y) < 0x8000
  {
    Pow2Consts();
    XorSplit(x, y, s == 1, t == 1, 15);
    XorBound(x, y, 15);
  }

  /** Two polynomials cancel. */
  lemma Polynomials(x: nat, y: nat, s: nat, t: nat, m: nat)
    requires s <= 1 && t <= 1
    ensures Xor(2 * Xor(x, y), if s == t then 0 else m)
         == Xor(Xor(2 * x, if s == 1 then m else 0), Xor(2 * y, if t == 1 then m else 0))
  {
    var p, q := if s == 1 then m else 0, if t == 1 then m else 0;
    XorRegroup(2 * x, p, 2 * y, q);
    XorDouble(x, y);
    XorSelf(m); XorZero(m);
  }

  /** The polynomial comes in exactly for a top digit. */
  lemma Shifted(c: Half, s: nat, x: nat)
    requires s <= 1 && c == x + s * 0x8000 && x < 0x8000
    ensures Shift(c) == Xor(2 * x, if s == 1 then POLY else 0)
  {
    XorZero(2 * x);
  }

  lemma {:induction false} ShiftsLinear(a: Half, b: Half, n: nat)
    ensures Shifts(XorHalf(a, b), n) == XorHalf(Shifts(a, n), Shifts(b, n))
  {
    if n > 0 {
      ShiftsLinear(a, b, n - 1);
      ShiftLinear(Shifts(a, n - 1), Shifts(b, n - 1));
    }
  }

  /** The same, eight digits further up. */
  lemma {:induction false} XorScale(a: nat, b: nat, k: nat)
    ensures Xor(a * Pow2(k), b * Pow2(k)) == Xor(a, b) * Pow2(k)
  {
    if k > 0 {
      Assoc(a, Pow2(k - 1)); Assoc(b, Pow2(k - 1)); Assoc(Xor(a, b), Pow2(k - 1));
      XorScale(a, b, k - 1);
      XorDouble(a * Pow2(k - 1), b * Pow2(k - 1));
    }
  }

  lemma ExtendLinear(c: Half, d: Half, a: Byte, b: Byte)
    ensures Extend(XorHalf(c, d), XorByte(a, b)) == XorHalf(Extend(c, a), Extend(d, b))
  {
    assert Pow2(8) == 256;
    XorScale(a, b, 8);
    XorRegroup(c, d, 256 * a, 256 * b);
    ShiftsLinear(XorHalf(c, 256 * a), XorHalf(d, 256 * b), ROUNDS);
  }

  function XorSeq(x: seq<Byte>, y: seq<Byte>): (z: seq<Byte>)
    requires |x| == |y|
    ensures |z| == |x|
  {
    seq(|x|, i requires 0 <= i < |x| => XorByte(x[i], y[i]))
  }

  /** The CRC of the XOR of two messages is the XOR of their CRCs. */
  lemma {:induction false} CrcLinear(c: Half, d: Half, x: seq<Byte>, y: seq<Byte>)
    requires |x| == |y|
    ensures Crc(XorHalf(c, d), XorSeq(x, y)) == XorHalf(Crc(c, x), Crc(d, y))
    decreases |x|
  {
    if x != [] {
      var n := |x| - 1;
      CrcLinear(c, d, x[..n], y[..n]);
      assert XorSeq(x, y)[..n] == XorSeq(x[..n], y[..n]);
      ExtendLinear(Crc(c, x[..n]), Crc(d, y[..n]), x[n], y[n]);
    }
  }

  // ---------------------------------------------------------------- the remainder it is

  /** The product without carries: the sum modulo 2, digit by digit, of `m` shifted up once for each digit of `q`. */
  function Clmul(q: nat, m: nat): (r: nat) {
    if q == 0 then 0 else Xor(2 * Clmul(q / 2, m), if q % 2 == 1 then m else 0)
  }

  /** The message as one number, first byte highest. */
  function BigEndian(x: seq<Byte>): (r: nat) {
    if x == [] then 0 else 256 * BigEndian(x[..|x| - 1]) + x[|x| - 1]
  }

  lemma {:induction false} ClmulXor(a: nat, b: nat, m: nat)
    ensures Xor(Clmul(a, m), Clmul(b, m)) == Clmul(Xor(a, b), m)
    decreases a + b
  {
    if a == 0 || b == 0 {
      XorZero(a); XorZero(b);
      XorZero(Clmul(a, m)); XorZero(Clmul(b, m));
    } else {
      var s, t := if a % 2 == 1 then m else 0, if b % 2 == 1 then m else 0;
      ClmulXor(a / 2, b / 2, m);
      XorRegroup(2 * Clmul(a / 2, m), s, 2 * Clmul(b / 2, m), t);
      XorDouble(Clmul(a / 2, m), Clmul(b / 2, m));
      XorSelf(m); XorZero(m); XorZero(0);
      ClmulStep(Xor(a, b), m);
    }
  }

  lemma ClmulStep(q: nat, m: nat)
    ensures Clmul(q, m) == Xor(2 * Clmul(q / 2, m), if q % 2 == 1 then m else 0)
  {
    XorZero(0);
  }

  /** `c` doubled `n` times. */
  function Doubled(c: nat, n: nat): (r: nat) {
    if n == 0 then c else 2 * Doubled(c, n - 1)
  }

  lemma DoubledEight(w: nat)
    ensures Doubled(w, 8) == 256 * w
  {
    assert Doubled(w, 1) == 2 * w;
    assert Doubled(w, 2) == 4 * w;
    assert Doubled(w, 4) == 2 * Doubled(w, 3);
    assert Doubled(w, 6) == 2 * Doubled(w, 5);
    assert Doubled(w, 8) == 2 * Doubled(w, 7);
  }

  lemma {:induction false} ClmulDoubled(q: nat, m: nat, n: nat)
    ensures Clmul(Doubled(q, n), m) == Doubled(Clmul(q, m), n)
  {
    if n > 0 {
      ClmulDoubled(q, m, n - 1);
      ClmulStep(Doubled(q, n), m);
      XorZero(2 * Clmul(Doubled(q, n - 1), m));
    }
  }

  lemma {:induction false} XorDoubled(a: nat, b: nat, n: nat)
    ensures Xor(Doubled(a, n), Doubled(b, n)) == Doubled(Xor(a, b), n)
  {
    if n > 0 {
      XorDoubled(a, b, n - 1);
      XorDouble(Doubled(a, n - 1), Doubled(b, n - 1));
    }
  }

  lemma ScaleByte(a: nat, b: nat)
    ensures Xor(256 * a, 256 * b) == 256 * Xor(a, b)
  {
    XorDoubled(a, b, 8);
    DoubledEight(a); DoubledEight(b); DoubledEight(Xor(a, b));
  }

  /** A multiple of a 17-digit number other than 0 has at least 17 digits. */
  lemma {:induction false} ClmulHigh(q: nat, m: nat)
    requires 0x1_0000 <= m < 0x2_0000 && q > 0
    ensures Clmul(q, m) >= 0x1_0000
  {
    if q == 1 {
      XorZero(m);
    } else {
      ClmulHigh(q / 2, m);
      var c := Clmul(q / 2, m);
      if Xor(2 * c, if q % 2 == 1 then m else 0) < 0x1_0000 {
        XorBack(2 * c, if q % 2 == 1 then m else 0);
      }
    }
  }

  lemma XorBack(a: nat, b: nat)
    requires Xor(a, b) < 0x1_0000 && b < 0x2_0000
    ensures a < 0x2_0000
  {
    Pow2Consts();
    assert Pow2(17) == 0x2_0000;
    XorBound(Xor(a, b), b, 17);
    XorAssoc(a, b, b);
    XorSelf(b);
    XorZero(a);
  }

  /** Each round of the shift loop takes away the polynomial, 0x1_1021 with its top digit, or nothing. */
  lemma ShiftTakes(c: Half)
    ensures Shift(c) == Xor(2 * c, if c >= 0x8000 then 0x1_1021 else 0)
  {
    XorZero(2 * c);
    if c >= 0x8000 {
      var y := 2 * (c - 0x8000);
      Pow2Consts();
      XorSplit(y, 0x1021, true, true, 16);
    }
  }

  /** Two multiples taken away are one. */
  lemma TakesMore(d: Half, p: nat, h: nat)
    requires d == Xor(p, Clmul(h, 0x1_1021))
    ensures Shift(d) == Xor(2 * p, Clmul(2 * h + (if d >= 0x8000 then 1 else 0), 0x1_1021))
  {
    ShiftTakes(d);
    XorDouble(p, Clmul(h, 0x1_1021));
    ClmulStep(2 * h + (if d >= 0x8000 then 1 else 0), 0x1_1021);
    XorAssoc(2 * p, 2 * Clmul(h, 0x1_1021), if d >= 0x8000 then 0x1_1021 else 0);
  }

  lemma {:induction false} ShiftsTake(c: Half, n: nat) returns (q: nat)
    ensures Shifts(c, n) == Xor(Doubled(c, n), Clmul(q, 0x1_1021))
  {
    if n == 0 {
      q := 0;
      XorZero(c);
    } else {
      var h := ShiftsTake(c, n - 1);
      var d := Shifts(c, n - 1);
      q := 2 * h + (if d >= 0x8000 then 1 else 0);
      TakesMore(d, Doubled(c, n - 1), h);
    }
  }

  lemma ExtendTakes(c: Half, b: Byte) returns (q: nat)
    ensures Extend(c, b) == Xor(Xor(256 * c, 0x1_0000 * b), Clmul(q, 0x1_1021))
  {
    q := ShiftsTake(XorHalf(c, 256 * b), ROUNDS);
    ScaleByte(c, 256 * b);
    DoubledEight(Xor(c, 256 * b));
  }

  lemma BytePlaces(m: nat, b: Byte)
    ensures 0x1_0000 * (256 * m + b) == Xor(0x100_0000 * m, 0x1_0000 * b)
  {
    assert Pow2(8) == 256;
    XorApart(m, b, 8);
    ScaleByte(256 * m, b);
    ScaleByte(0x1_0000 * m, 256 * b);
  }

  /** The parts that come in twice go out. */
  lemma TwiceGone(u: nat, v: nat, w: nat, z: nat)
    ensures Xor(Xor(u, v), Xor(Xor(w, v), z)) == Xor(Xor(u, w), z)
  {
    XorAssoc(Xor(u, v), Xor(w, v), z);
    XorRegroup(u, v, w, v);
    XorSelf(v);
    XorZero(Xor(u, w));
  }

  /** One more byte of the message. */
  lemma ByteAppended(m: nat, b: Byte, c: Half, e: Half, h: nat, q: nat)
    requires Xor(0x1_0000 * m, c) == Clmul(h, 0x1_1021)
    requires e == Xor(Xor(256 * c, 0x1_0000 * b), Clmul(q, 0x1_1021))
    ensures Xor(0x1_0000 * (256 * m + b), e) == Clmul(Xor(256 * h, q), 0x1_1021)
  {
    BytePlaces(m, b);
    TwiceGone(0x100_0000 * m, 0x1_0000 * b, 256 * c, Clmul(q, 0x1_1021));
    MultipleUp(m, c, h);
    ClmulXor(256 * h, q, 0x1_1021);
  }

  lemma MultipleUp(m: nat, c: nat, h: nat)
    requires Xor(0x1_0000 * m, c) == Clmul(h, 0x1_1021)
    ensures Xor(0x100_0000 * m, 256 * c) == Clmul(256 * h, 0x1_1021)
  {
    ScaleByte(0x1_0000 * m, c);
    ClmulDoubled(h, 0x1_1021, 8);
    DoubledEight(h); DoubledEight(Clmul(h, 0x1_1021));
  }

  lemma CrcStep(x: seq<Byte>)
    requires x != []
    ensures Crc(0, x) == Extend(Crc(0, x[..|x| - 1]), x[|x| - 1])
    ensures BigEndian(x) == 256 * BigEndian(x[..|x| - 1]) + x[|x| - 1]
  {}

  /** The message times x^16, plus its CRC, is a multiple of x^16 + x^12 + x^5 + 1. */
  lemma {:induction false} CrcDivides(x: seq<Byte>) returns (q: nat)
    ensures Xor(0x1_0000 * BigEndian(x), Crc(0, x)) == Clmul(q, 0x1_1021)
    decreases |x|
  {
    if x == [] {
      q := 0;
      XorZero(0);
    } else {
      var h := CrcDivides(x[..|x| - 1]);
      var c, b: Byte := Crc(0, x[..|x| - 1]), x[|x| - 1];
      CrcStep(x);
      var s := ExtendTakes(c, b);
      ByteAppended(BigEndian(x[..|x| - 1]), b, c, Crc(0, x), h, s);
      q := Xor(256 * h, s);
    }
  }

  /** The CRC is the remainder of that division: it is the only 16-bit number that completes a multiple. */
  lemma CrcIsRemainder(x: seq<Byte>, r: Half)
    ensures r == Crc(0, x) <==> exists q {:trigger Clmul(q, 0x1_1021)} ::
      q >= 0 && Xor(0x1_0000 * BigEndian(x), r) == Clmul(q, 0x1_1021)
  {
    var h := CrcDivides(x);
    assert Clmul(h, 0x1_1021) == Clmul(h, 0x1_1021);
    var m, c := 0x1_0000 * BigEndian(x), Crc(0, x);
    forall q: nat | Xor(m, r) == Clmul(q, 0x1_1021) ensures r == c {
      XorRegroup(m, r, m, c);
      XorSelf(m);
      XorZero(Xor(r, c));
      ClmulXor(q, h, 0x1_1021);
      HalfBound(r, c);
      if Xor(q, h) > 0 { ClmulHigh(Xor(q, h), 0x1_1021); }
      XorSelf(c);
      XorCancel(r, c, c);
    }
  }

  // ---------------------------------------------------------------- injectivity

  /** The digit shifted out can be read off the parity of the result. */
  lemma ShiftInjective(a: Half, b: Half)
    requires Shift(a) == Shift(b)
    ensures a == b
  {
    ShiftParity(a);
    ShiftParity(b);
    if a >= 0x8000 { XorCancel(2 * (a - 0x8000), 2 * (b - 0x8000), POLY); }
  }

  lemma ShiftParity(c: Half)
    ensures Shift(c) % 2 == 1 <==> c >= 0x8000
  {}

  lemma {:induction false} ShiftsInjective(a: Half, b: Half, n: nat)
    requires Shifts(a, n) == Shifts(b, n)
    ensures a == b
  {
    if n > 0 {
      ShiftInjective(Shifts(a, n - 1), Shifts(b, n - 1));
      ShiftsInjective(a, b, n - 1);
    }
  }

  /** One byte takes different CRCs to different CRCs, and different bytes to different CRCs. */
  lemma ExtendInjective(c: Half, d: Half, a: Byte, b: Byte)
    requires Extend(c, a) == Extend(d, b)
    ensures a == b <==> c == d
  {
    ShiftsInjective(XorHalf(c, 256 * a), XorHalf(d, 256 * b), ROUNDS);
    if a == b { XorCancel(c, d, 256 * a); }
    if c == d {
      XorComm(c, 256 * a); XorComm(c, 256 * b);
      XorCancel(256 * a, 256 * b, c);
    }
  }

  lemma {:induction false} CrcConcat(c: Half, x: seq<Byte>, y: seq<Byte>)
    ensures Crc(c, x + y) == Crc(Crc(c, x), y)
    decreases |y|
  {
    if y == [] {
      assert x + y == x;
    } else {
      var n := |y| - 1;
      CrcConcat(c, x, y[..n]);
      assert (x + y)[..|x + y| - 1] == x + y[..n];
    }
  }

  lemma {:induction false} CrcInjective(c: Half, d: Half, x: seq<Byte>)
    requires Crc(c, x) == Crc(d, x)
    ensures c == d
    decreases |x|
  {
    if x != [] {
      var n := |x| - 1;
      ExtendInjective(Crc(c, x[..n]), Crc(d, x[..n]), x[n], x[n]);
      CrcInjective(c, d, x[..n]);
    }
  }

  // ---------------------------------------------------------------- error detection

  lemma {:induction false} ShiftsAdd(c: Half, m: nat, n: nat)
    ensures Shifts(Shifts(c, m), n) == Shifts(c, m + n)
  {
    if n > 0 { ShiftsAdd(c, m, n - 1); }
  }

  /** Shifting a low byte up loses nothing. */
  lemma {:induction false} LowUp(b: Byte, n: nat)
    requires n <= ROUNDS
    ensures Shifts(b, n) == b * Pow2(n)
  {
    if n > 0 {
      LowUp(b, n - 1);
      assert Pow2(7) == 128;
      if n < 8 { Pow2Mono(n - 1, 7); }
      MulMono(b, Pow2(n - 1), 128);
      Assoc(b, Pow2(n - 1));
    }
  }

  lemma MulMono(b: nat, p: nat, q: nat)
    requires p <= q
    ensures b * p <= b * q
  {}

  /** Two bytes as one 16-bit word. */
  function Pair(a: Byte, b: Byte): (r: Half) {
    256 * a + b
  }

  lemma PairXor(a: Byte, b: Byte)
    ensures Pair(a, b) == XorHalf(256 * a, b)
  {
    assert Pow2(8) == 256;
    XorApart(a, b, 8);
  }

  /** Two bytes in a row act as one 16-bit word. */
  lemma TwoBytes(c: Half, a: Byte, b: Byte)
    ensures Extend(Extend(c, a), b) == Shifts(XorHalf(c, Pair(a, b)), ROUNDS + ROUNDS)
  {
    PairXor(a, b);
    ByteShifted(b);
    ShiftsLinear(XorHalf(c, 256 * a), b, ROUNDS);
    XorAssoc(c, 256 * a, b);
    ShiftsAdd(XorHalf(c, Pair(a, b)), ROUNDS, ROUNDS);
  }

  lemma ByteShifted(b: Byte)
    ensures Shifts(b, ROUNDS) == 256 * b
  {
    assert Pow2(8) == 256;
    LowUp(b, ROUNDS);
  }

  lemma PairAfter(c: Half, x: seq<Byte>, a: Byte, b: Byte)
    ensures Crc(c, x + [a, b]) == Shifts(XorHalf(Crc(c, x), Pair(a, b)), ROUNDS + ROUNDS)
  {
    CrcConcat(c, x, [a, b]);
    assert [a, b][..1] == [a] && [a][..0] == [];
    assert Crc(Crc(c, x), [a]) == Extend(Crc(c, x), a);
    TwoBytes(Crc(c, x), a, b);
  }

  /** Messages that differ within two adjacent bytes only have different CRCs. */
  lemma BurstDetected(c: Half, x: seq<Byte>, a: Byte, b: Byte, e: Byte, f: Byte, y: seq<Byte>)
    ensures Crc(c, x + [a, b] + y) == Crc(c, x + [e, f] + y) <==> a == e && b == f
  {
    if Crc(c, x + [a, b] + y) == Crc(c, x + [e, f] + y) {
      CrcConcat(c, x + [a, b], y);
      CrcConcat(c, x + [e, f], y);
      CrcInjective(Crc(c, x + [a, b]), Crc(c, x + [e, f]), y);
      PairAfter(c, x, a, b);
      PairAfter(c, x, e, f);
      var d := Crc(c, x);
      ShiftsInjective(XorHalf(d, Pair(a, b)), XorHalf(d, Pair(e, f)), ROUNDS + ROUNDS);
      XorComm(d, Pair(a, b)); XorComm(d, Pair(e, f));
      XorCancel(Pair(a, b), Pair(e, f), d);
    }
  }

  /** So do messages that differ in one byte only. */
  lemma ByteDetected(c: Half, x: seq<Byte>, a: Byte, b: Byte, y: seq<Byte>)
    ensures Crc(c, x + [a] + y) == Crc(c, x + [b] + y) <==> a == b
  {
    if Crc(c, x + [a] + y) == Crc(c, x + [b] + y) {
      CrcConcat(c, x + [a], y);
      CrcConcat(c, x + [b], y);
      CrcInjective(Crc(c, x + [a]), Crc(c, x + [b]), y);
      assert (x + [a])[..|x|] == x && (x + [b])[..|x|] == x;
      ExtendInjective(Crc(c, x), Crc(c, x), a, b);
    }
  }

  lemma {:induction false} ShiftsZero(n: nat)
    ensures Shifts(0, n) == 0
  {
    if n > 0 { ShiftsZero(n - 1); }
  }

  /** Appending its own CRC to a message, high byte first, always gives CRC 0. */
  lemma SelfCheck(c: Half, x: seq<Byte>)
    ensures Crc(c, x + [Crc(c, x) / 256, Crc(c, x) % 256]) == 0
  {
    var d := Crc(c, x);
    PairAfter(c, x, d / 256, d % 256);
    XorSelf(d);
    ShiftsZero(ROUNDS + ROUNDS);
  }
}
