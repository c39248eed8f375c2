/** Unsigned machine arithmetic on natural numbers: the C operators `&`, `|`, `^`, `~`, `<<`, `>>`
    written as recursions over the binary digits, so that facts about them need no bit-vectors. */
module Bits {

  type Byte = b: int | 0 <= b < 256
  type Word = w: int | 0 <= w < 0x1_0000_0000

  /** Truncation to 32 bits. */
  function Wrap32(x: int): (w: Word) {
    x % 0x1_0000_0000
  }

  function Pow2(k: nat): (r: nat)
    ensures r >= 1
  {
    if k == 0 then 1 else 2 * Pow2(k - 1)
  }

  /** Digit `i` of `w`. */
  predicate Bit(w: nat, i: nat) {
    if i == 0 then w % 2 == 1 else Bit(w / 2, i - 1)
  }

  function And(a: nat, b: nat): (r: nat) {
    if a == 0 then 0 else (if a % 2 == 1 && b % 2 == 1 then 1 else 0) + 2 * And(a / 2, b / 2)
  }

  function Or(a: nat, b: nat): (r: nat) {
    if a == 0 then b else (if a % 2 == 1 || b % 2 == 1 then 1 else 0) + 2 * Or(a / 2, b / 2)
  }

  function Xor(a: nat, b: nat): (r: nat) {
    if a == 0 then b else (if a % 2 == b % 2 then 0 else 1) + 2 * Xor(a / 2, b / 2)
  }

  /** `w >> k`. */
  function Shr(w: nat, k: nat): (r: nat) {
    if k == 0 then w else Shr(w / 2, k - 1)
  }

  /** `w << k` before truncation to a word. */
  function Shl(w: nat, k: nat): (r: nat) {
    w * Pow2(k)
  }

  /** `~w` on a `width`-bit word. */
  function Not(w: nat, width: nat): (r: nat)
    requires w < Pow2(width)
  {
    Pow2(width) - 1 - w
  }

  // ---------------------------------------------------------------- digits

  lemma Pow2Add(i: nat, j: nat)
    ensures Pow2(i + j) == Pow2(i) * Pow2(j)
  {
    if i > 0 { Pow2Add(i - 1, j); }
  }

  lemma Pow2Mono(i: nat, j: nat)
    requires i < j
    ensures 2 * Pow2(i) <= Pow2(j)
  {
    if i < j - 1 { Pow2Mono(i, j - 1); }
  }

  lemma BitZero(i: nat)
    ensures !Bit(0, i)
  {}

  /** A number below 2^k has no digit at or above k. */
  lemma {:induction false} BitHigh(w: nat, k: nat, i: nat)
    requires w < Pow2(k) && k <= i
    ensures !Bit(w, i)
  {
    if k == 0 { BitZero(i); } else { BitHigh(w / 2, k - 1, i - 1); }
  }

  lemma {:induction false} BitPow2(k: nat, i: nat)
    ensures Bit(Pow2(k), i) <==> i == k
  {
    if k == 0 {
      if i > 0 { BitZero(i - 1); }
    } else if i > 0 {
      BitPow2(k - 1, i - 1);
    }
  }

  /** Numbers with the same digits are the same number. */
  lemma {:induction false} BitExt(a: nat, b: nat)
    requires forall i: nat :: Bit(a, i) <==> Bit(b, i)
    ensures a == b
    decreases a + b
  {
    if a != 0 || b != 0 {
      assert Bit(a, 0) <==> Bit(b, 0);
      forall i: nat ensures Bit(a / 2, i) <==> Bit(b / 2, i) {
        assert Bit(a, i + 1) <==> Bit(b, i + 1);
      }
      BitExt(a / 2, b / 2);
    }
  }

  lemma {:induction false} BitAnd(a: nat, b: nat, i: nat)
    ensures Bit(And(a, b), i) <==> Bit(a, i) && Bit(b, i)
    decreases i
  {
    if a == 0 {
      BitZero(i);
    } else {
      assert And(a, b) / 2 == And(a / 2, b / 2);
      if i > 0 { BitAnd(a / 2, b / 2, i - 1); }
    }
  }

  lemma {:induction false} BitOr(a: nat, b: nat, i: nat)
    ensures Bit(Or(a, b), i) <==> Bit(a, i) || Bit(b, i)
    decreases i
  {
    if a == 0 {
      BitZero(i);
    } else {
      assert Or(a, b) / 2 == Or(a / 2, b / 2);
      if i > 0 { BitOr(a / 2, b / 2, i - 1); }
    }
  }

  lemma {:induction false} BitXor(a: nat, b: nat, i: nat)
    ensures Bit(Xor(a, b), i) <==> (Bit(a, i) <==> !Bit(b, i))
    decreases i
  {
    if a == 0 {
      BitZero(i);
    } else {
      assert Xor(a, b) / 2 == Xor(a / 2, b / 2);
      if i > 0 { BitXor(a / 2, b / 2, i - 1); }
    }
  }

  lemma {:induction false} BitNot(w: nat, width: nat, i: nat)
    requires w < Pow2(width)
    ensures Bit(Not(w, width), i) <==> i < width && !Bit(w, i)
    decreases width
  {
    if width == 0 {
      BitZero(i);
    } else {
      assert Not(w, width) / 2 == Not(w / 2, width - 1);
      if i > 0 { BitNot(w / 2, width - 1, i - 1); }
    }
  }

  lemma {:induction false} AndBound(a: nat, b: nat)
    ensures And(a, b) <= a && And(a, b) <= b
  {
    if a != 0 {
      AndBound(a / 2, b / 2);
    }
  }

  lemma {:induction false} OrBound(a: nat, b: nat, k: nat)
    requires a < Pow2(k) && b < Pow2(k)
    ensures Or(a, b) < Pow2(k)
  {
    if a != 0 && k > 0 { OrBound(a / 2, b / 2, k - 1); }
  }

  lemma {:induction false} XorBound(a: nat, b: nat, k: nat)
    requires a < Pow2(k) && b < Pow2(k)
    ensures Xor(a, b) < Pow2(k)
  {
    if a != 0 && k > 0 { XorBound(a / 2, b / 2, k - 1); }
  }

  /** A non-zero number has a digit. */
  lemma {:induction false} SomeBit(w: nat) returns (i: nat)
    requires w > 0
    ensures Bit(w, i)
  {
    if w % 2 == 1 {
      i := 0;
    } else {
      i := SomeBit(w / 2);
      i := i + 1;
    }
  }

  /** Toggling the top digit of `v` clears it. */
  lemma {:induction false} XorTop(v: nat, k: nat)
    requires Pow2(k) <= v < 2 * Pow2(k)
    ensures Xor(v, Pow2(k)) == v - Pow2(k)
  {
    if k > 0 {
      var p := Pow2(k - 1);
      XorTop(v / 2, k - 1);
      assert Pow2(k) / 2 == p && Pow2(k) % 2 == 0;
      assert v == 2 * (v / 2) + v % 2;
    }
  }

  lemma Pow2Consts()
    ensures Pow2(1) == 2 && Pow2(2) == 4 && Pow2(4) == 16 && Pow2(8) == 256 && Pow2(16) == 0x1_0000
    ensures Pow2(24) == 0x100_0000 && Pow2(28) == 0x1000_0000 && Pow2(30) == 0x4000_0000
    ensures Pow2(31) == 0x8000_0000 && Pow2(32) == 0x1_0000_0000
  {
    assert Pow2(8) == 256;
    Pow2Add(8, 8); Pow2Add(16, 8); Pow2Add(24, 4); Pow2Add(28, 2); Pow2Add(30, 1); Pow2Add(31, 1);
  }

  /** `a << k | b` for `b` below 2^k. */
  lemma {:induction false} OrApart(a: nat, b: nat, k: nat)
    requires b < Pow2(k)
    ensures Or(a * Pow2(k), b) == a * Pow2(k) + b && Or(b, a * Pow2(k)) == a * Pow2(k) + b
  {
    if k == 0 {
      assert a * Pow2(0) == a;
      OrZero(a);
    } else {
      var p := Pow2(k - 1);
      assert a * (2 * p) == 2 * (a * p) by { Assoc(a, p); }
      OrApart(a, b / 2, k - 1);
      var x := a * Pow2(k);
      assert x % 2 == 0 && x / 2 == a * p;
      if b == 0 { OrZero(x); }
    }
  }

  lemma {:induction false} OrZero(a: nat)
    ensures Or(a, 0) == a
  {
    if a != 0 { OrZero(a / 2); }
  }

  // ---------------------------------------------------------------- the group of xor

  lemma {:induction false} XorZero(a: nat)
    ensures Xor(a, 0) == a && Xor(0, a) == a
  {
    if a != 0 { XorZero(a / 2); }
  }

  lemma {:induction false} XorSelf(a: nat)
    ensures Xor(a, a) == 0
  {
    if a != 0 { XorSelf(a / 2); }
  }

  lemma {:induction false} XorComm(a: nat, b: nat)
    ensures Xor(a, b) == Xor(b, a)
  {
    if a == 0 || b == 0 {
      XorZero(a); XorZero(b);
    } else {
      XorComm(a / 2, b / 2);
    }
  }

  lemma {:induction false} XorAssoc(a: nat, b: nat, c: nat)
    ensures Xor(Xor(a, b), c) == Xor(a, Xor(b, c))
  {
    forall i: nat ensures Bit(Xor(Xor(a, b), c), i) <==> Bit(Xor(a, Xor(b, c)), i) {
      BitXor(Xor(a, b), c, i);
      BitXor(a, b, i);
      BitXor(a, Xor(b, c), i);
      BitXor(b, c, i);
    }
    BitExt(Xor(Xor(a, b), c), Xor(a, Xor(b, c)));
  }

  lemma XorCancel(a: nat, b: nat, h: nat)
    requires Xor(a, h) == Xor(b, h)
    ensures a == b
  {
    XorAssoc(a, h, h); XorAssoc(b, h, h);
    XorSelf(h);
    XorZero(a); XorZero(b);
  }

  /** (a ^ b) ^ (c ^ d) == (a ^ c) ^ (b ^ d). */
  lemma XorRegroup(a: nat, b: nat, c: nat, d: nat)
    ensures Xor(Xor(a, b), Xor(c, d)) == Xor(Xor(a, c), Xor(b, d))
  {
    XorAssoc(a, b, Xor(c, d));
    XorAssoc(b, c, d);
    XorComm(b, c);
    XorAssoc(c, b, d);
    XorAssoc(a, c, Xor(b, d));
  }

  lemma XorDouble(a: nat, b: nat)
    ensures Xor(2 * a, 2 * b) == 2 * Xor(a, b)
  {}

  function Top(on: bool, k: nat): (r: nat) {
    if on then Pow2(k) else 0
  }

  /** `a << k ^ b` for `b` below 2^k. */
  lemma {:induction false} XorApart(a: nat, b: nat, k: nat)
    requires b < Pow2(k)
    ensures Xor(a * Pow2(k), b) == a * Pow2(k) + b
  {
    if k == 0 {
      assert a * Pow2(0) == a;
      XorZero(a);
    } else {
      var p := Pow2(k - 1);
      assert a * (2 * p) == 2 * (a * p) by { Assoc(a, p); }
      XorApart(a, b / 2, k - 1);
      var x := a * Pow2(k);
      assert x % 2 == 0 && x / 2 == a * p;
    }
  }

  lemma TopApart(a: nat, on: bool, k: nat)
    requires a < Pow2(k)
    ensures Xor(Top(on, k), a) == a + Top(on, k)
  {
    if on { XorApart(1, a, k); } else { XorZero(a); }
  }

  /** The digit at k and those below it are xored separately. */
  lemma XorSplit(a: nat, b: nat, s: bool, t: bool, k: nat)
    requires a < Pow2(k) && b < Pow2(k)
    ensures Xor(a + Top(s, k), b + Top(t, k)) == Xor(a, b) + Top(s != t, k)
  {
    TopApart(a, s, k);
    TopApart(b, t, k);
    XorRegroup(Top(s, k), a, Top(t, k), b);
    XorSelf(Pow2(k));
    XorZero(Pow2(k));
    XorZero(0);
    XorBound(a, b, k);
    TopApart(Xor(a, b), s != t, k);
  }

  // ------------------------------------------------- setting and clearing one digit

  lemma SetBit(w: nat, k: nat)
    ensures Or(w, Pow2(k)) > 0
    ensures forall i: nat :: Bit(Or(w, Pow2(k)), i) <==> i == k || Bit(w, i)
  {
    forall i: nat ensures Bit(Or(w, Pow2(k)), i) <==> i == k || Bit(w, i) {
      BitOr(w, Pow2(k), i);
      BitPow2(k, i);
    }
    BitZero(k);
  }

  lemma ClearBit(w: nat, k: nat, width: nat)
    requires k < width && w < Pow2(width)
    ensures Pow2(k) < Pow2(width)
    ensures And(w, Not(Pow2(k), width)) < Pow2(width)
    ensures forall i: nat :: Bit(And(w, Not(Pow2(k), width)), i) <==> i != k && Bit(w, i)
  {
    Pow2Mono(k, width);
    AndBound(w, Not(Pow2(k), width));
    forall i: nat ensures Bit(And(w, Not(Pow2(k), width)), i) <==> i != k && Bit(w, i) {
      BitAnd(w, Not(Pow2(k), width), i);
      BitNot(Pow2(k), width, i);
      BitPow2(k, i);
      if i >= width { BitHigh(w, width, i); }
    }
  }

  /** `w & (~0 << k)` keeps exactly the digits at or above k. */
  lemma MaskFrom(w: nat, k: nat, width: nat, mask: nat)
    requires k <= width && w < Pow2(width) && mask == Pow2(width) - Pow2(k)
    ensures forall i: nat :: Bit(And(w, mask), i) <==> i >= k && Bit(w, i)
  {
    forall i: nat ensures Bit(And(w, mask), i) <==> i >= k && Bit(w, i) {
      BitAnd(w, mask, i);
      BitMask(k, width, i);
      if i >= width { BitHigh(w, width, i); }
    }
  }

  lemma {:induction false} BitMask(k: nat, width: nat, i: nat)
    requires k <= width && Pow2(k) <= Pow2(width)
    ensures Bit(Pow2(width) - Pow2(k), i) <==> k <= i < width
    decreases width
  {
    if k == width {
      BitZero(i);
    } else if k == 0 {
      assert 0 < Pow2(width);
      BitZero(i);
      BitNot(0, width, i);
    } else {
      Pow2Mono(k, width);
      assert (Pow2(width) - Pow2(k)) / 2 == Pow2(width - 1) - Pow2(k - 1);
      if i > 0 { BitMask(k - 1, width - 1, i - 1); }
    }
  }

  // ------------------------------------------------- most and least significant digit

  /** Index of the most significant digit of `w`, or -1. */
  function Log(w: nat): (r: int)
    ensures r >= -1 && (r == -1 <==> w == 0)
  {
    if w == 0 then -1 else 1 + Log(w / 2)
  }

  lemma {:induction false} LogBounds(w: nat)
    requires w > 0
    ensures Pow2(Log(w)) <= w < 2 * Pow2(Log(w))
  {
    if w > 1 { LogBounds(w / 2); }
  }

  lemma {:induction false} LogIs(w: nat, k: nat)
    requires Pow2(k) <= w < 2 * Pow2(k)
    ensures Log(w) == k
  {
    LogBounds(w);
    var j := Log(w);
    if j < k { Pow2Mono(j, k); } else if k < j { Pow2Mono(k, j); }
  }

  lemma {:induction false} LogMono(a: nat, b: nat)
    requires a <= b
    ensures Log(a) <= Log(b)
  {
    if a > 0 { LogMono(a / 2, b / 2); }
  }

  lemma {:induction false} LogShl(w: nat, k: nat)
    requires w > 0
    ensures Log(w * Pow2(k)) == Log(w) + k
  {
    if k == 0 {
    } else {
      assert w * Pow2(k) == 2 * (w * Pow2(k - 1)) by { Assoc(w, Pow2(k - 1)); }
      LogShl(w, k - 1);
    }
  }

  lemma Assoc(w: nat, p: nat)
    ensures w * (2 * p) == 2 * (w * p)
  {}

  /** Index of the least significant digit of `w`. */
  function Low(w: nat): (r: nat)
    requires w > 0
  {
    if w % 2 == 1 then 0 else 1 + Low(w / 2)
  }

  /** `Low(w)` is a digit of `w` and no lower one is. */
  lemma {:induction false} LowIsLeast(w: nat)
    requires w > 0
    ensures Bit(w, Low(w)) && forall i: nat :: i < Low(w) ==> !Bit(w, i)
  {
    if w % 2 == 0 {
      LowIsLeast(w / 2);
      forall i: nat | i < Low(w) ensures !Bit(w, i) {
        if i > 0 { assert !Bit(w / 2, i - 1); }
      }
    }
  }

  /** No digit is shared by a word and its complement. */
  lemma {:induction false} AndNot(v: nat, width: nat)
    requires v < Pow2(width)
    ensures And(v, Not(v, width)) == 0
  {
    if v != 0 {
      assert Not(v, width) / 2 == Not(v / 2, width - 1);
      AndNot(v / 2, width - 1);
      assert v % 2 == 0 || Not(v, width) % 2 == 0;
    }
  }

  /** `w & (~w + 1)` isolates the least significant digit. */
  lemma {:induction false} IsolateLow(w: nat, width: nat)
    requires 0 < w < Pow2(width)
    ensures And(w, Pow2(width) - w) == Pow2(Low(w))
  {
    var c := Pow2(width) - w;
    assert width > 0 && Pow2(width) == 2 * Pow2(width - 1);
    assert w == 2 * (w / 2) + w % 2;
    if w % 2 == 1 {
      assert c % 2 == 1 && c / 2 == Not(w / 2, width - 1);
      AndNot(w / 2, width - 1);
    } else {
      assert c % 2 == 0 && c / 2 == Pow2(width - 1) - w / 2;
      IsolateLow(w / 2, width - 1);
    }
  }

  lemma {:induction false} ShrMono(a: nat, b: nat, k: nat)
    requires a <= b
    ensures Shr(a, k) <= Shr(b, k)
  {
    if k > 0 { ShrMono(a / 2, b / 2, k - 1); }
  }

  /** `y` with its lowest k digits cleared. */
  function Down(y: nat, k: nat): (r: nat)
    ensures r <= y < r + Pow2(k)
  {
    if k == 0 then y else 2 * Down(y / 2, k - 1)
  }

  /** `x` is a multiple of 2^k. */
  predicate Aligned(x: nat, k: nat) {
    k == 0 || (x % 2 == 0 && Aligned(x / 2, k - 1))
  }

  lemma {:induction false} DownAligned(y: nat, k: nat)
    ensures Aligned(Down(y, k), k)
  {
    if k > 0 {
      assert Down(y, k) / 2 == Down(y / 2, k - 1) && Down(y, k) % 2 == 0;
      DownAligned(y / 2, k - 1);
    }
  }

  /** Rounding a multiple up leaves it alone. */
  lemma {:induction false} DownOfAligned(x: nat, k: nat)
    requires Aligned(x, k)
    ensures Down(x + Pow2(k) - 1, k) == x
  {
    if k > 0 {
      assert (x + Pow2(k) - 1) / 2 == x / 2 + Pow2(k - 1) - 1;
      DownOfAligned(x / 2, k - 1);
    }
  }

  lemma {:induction false} AlignedPlus(x: nat, k: nat)
    requires Aligned(x, k)
    ensures Aligned(x + Pow2(k), k)
  {
    if k > 0 { AlignedPlus(x / 2, k - 1); }
  }

  /** A multiple of 2^k below 2^width stays clear of 2^width by 2^k. */
  lemma {:induction false} AlignedBelow(x: nat, k: nat, width: nat)
    requires Aligned(x, k) && k <= width && x < Pow2(width)
    ensures x + Pow2(k) <= Pow2(width)
  {
    if k > 0 { AlignedBelow(x / 2, k - 1, width - 1); }
  }

  lemma {:induction false} AlignedShr(x: nat, k: nat)
    requires Aligned(x, k)
    ensures x == Shr(x, k) * Pow2(k)
  {
    if k > 0 {
      AlignedShr(x / 2, k - 1);
      Assoc(Shr(x / 2, k - 1), Pow2(k - 1));
    }
  }

  lemma SameMultiple(p: nat, q: nat, a: nat)
    requires a > 0 && q * a <= p * a < q * a + a
    ensures p == q
  {
    if p > q { NextMultiple(q, p, a); }
    if p < q { NextMultiple(p, q, a); }
  }

  lemma {:induction false} NextMultiple(q: nat, p: nat, a: nat)
    requires q < p
    ensures p * a >= q * a + a
  {
    if p > q + 1 { NextMultiple(q, p - 1, a); }
  }

  lemma MultipleMod(q: nat, a: nat)
    requires a > 0
    ensures (q * a) % a == 0
  {
    var x := q * a;
    assert x == (x / a) * a + x % a;
    SameMultiple(q, x / a, a);
  }

  /** `Aligned` in terms of the remainder. */
  lemma AlignedMod(x: nat, k: nat)
    requires Aligned(x, k)
    ensures x % Pow2(k) == 0
  {
    AlignedShr(x, k);
    MultipleMod(Shr(x, k), Pow2(k));
  }

  /** `y & ~(2^k - 1)` clears the lowest k digits. */
  lemma {:induction false} AndHigh(y: nat, k: nat, width: nat, mask: nat)
    requires k <= width && y < Pow2(width) && mask == Pow2(width) - Pow2(k)
    ensures And(y, mask) == Down(y, k)
    decreases width
  {
    if k > 0 {
      assert mask % 2 == 0 && mask / 2 == Pow2(width - 1) - Pow2(k - 1);
      AndHigh(y / 2, k - 1, width - 1, mask / 2);
    } else {
      AndOnes(y, width, mask);
    }
  }

  lemma {:induction false} AndOnes(y: nat, width: nat, mask: nat)
    requires y < Pow2(width) && mask == Pow2(width) - 1
    ensures And(y, mask) == y
  {
    if y != 0 {
      AndOnes(y / 2, width - 1, mask / 2);
      assert mask % 2 == 1;
    }
  }

  /** Quotient and remainder are the only ones. */
  lemma MultipleUnique(k: nat, n: nat, q: nat, r: nat)
    requires r < n && k == q * n + r
    ensures k / n == q && k % n == r
  {
    var p, s := k / n, k % n;
    assert k == p * n + s;
    if p > q { NextMultiple(q, p, n); }
    if p < q { NextMultiple(p, q, n); }
  }

  lemma HalfThen(b: nat, p: nat)
    requires p > 0
    ensures b / 2 / p == b / (2 * p)
  {
    var q, r := b / (2 * p), b % (2 * p);
    assert b == q * (2 * p) + r;
    assert b / 2 == q * p + r / 2 by { assert q * (2 * p) == 2 * (q * p); }
    MultipleUnique(b / 2, p, q, r / 2);
  }

  lemma {:induction false} ShrIsQuotient(w: nat, k: nat)
    ensures Shr(w, k) == w / Pow2(k)
  {
    if k > 0 {
      ShrIsQuotient(w / 2, k - 1);
      HalfThen(w, Pow2(k - 1));
    }
  }

  lemma {:induction false} ShrTwice(w: nat, j: nat, k: nat)
    ensures Shr(Shr(w, j), k) == Shr(w, j + k)
  {
    if j > 0 { ShrTwice(w / 2, j - 1, k); }
  }

  lemma {:induction false} LogShr(w: nat, k: nat)
    requires Shr(w, k) > 0
    ensures Log(w) == k + Log(Shr(w, k))
  {
    if k > 0 { LogShr(w / 2, k - 1); }
  }
}
