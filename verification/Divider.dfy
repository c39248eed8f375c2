/** The iterative divider of rtl/femtorv32_gracilis.v against DIV, DIVU, REM and REMU of section 6.2 of the
    RISC-V Instruction Set Manual, Volume I, version 2.2. */
module Divider {
  import opened Bits

  const RANGE := 0x1_0000_0000
  const HALF := 0x8000_0000

  /** Two's complement. */
  function Signed(w: Word): (x: int) {
    if w >= HALF then w - RANGE else w
  }

  /** `-w` on 32 bits. */
  function Neg(w: Word): (r: Word) {
    if w == 0 then 0 else RANGE - w
  }

  // ---------------------------------------------------------------- what the manual asks for

  function Abs(x: int): (r: nat) { if x < 0 then -x else x }

  /** Quotient rounded towards zero, and remainder with the sign of the dividend. */
  function Quo(a: int, b: int): (q: int)
    requires b != 0
  {
    if (a < 0) == (b < 0) then Abs(a) / Abs(b) else -(Abs(a) / Abs(b))
  }

  function Rest(a: int, b: int): (r: int)
    requires b != 0
  {
    if a < 0 then -(Abs(a) % Abs(b)) else Abs(a) % Abs(b)
  }

  /** What the manual asks of quotient and remainder: the identity, a remainder smaller than the divisor, and the
      sign of the dividend. */
  predicate Meets(a: int, b: int, q: int, r: int) {
    a == b * q + r && (if r < 0 then -r else r) < (if b < 0 then -b else b) && (r != 0 ==> (r < 0 <==> a < 0))
  }

  /** Quotient and remainder are the only pair that meets the manual's identity, bound and sign. */
  lemma QuoRest(a: int, b: int, q: int, r: int)
    requires b != 0
    ensures Meets(a, b, q, r) <==> q == Quo(a, b) && r == Rest(a, b)
  {
    QuoRestMeet(a, b);
    if Meets(a, b, q, r) { OnlyPair(a, b, q, r); }
  }

  lemma OnlyPair(a: int, b: int, q: int, r: int)
    requires b != 0 && a == b * q + r && Abs(r) < Abs(b) && (r != 0 ==> (r < 0 <==> a < 0))
    ensures q == Quo(a, b) && r == Rest(a, b)
  {
    var v := if (a < 0) == (b < 0) then q else -q;
    Magnitudes(a, b, q, r, v);
    Divides(Abs(a), Abs(b));
    OneQuotient(Abs(b), v, Abs(a) / Abs(b), Abs(r), Abs(a) % Abs(b));
  }

  lemma Magnitudes(a: int, b: int, q: int, r: int, v: int)
    requires b != 0 && a == b * q + r && (r != 0 ==> (r < 0 <==> a < 0))
    requires v == if (a < 0) == (b < 0) then q else -q
    ensures Abs(a) == Abs(b) * v + Abs(r)
  {
    SignedProduct(b, q);
  }

  lemma Divides(x: nat, u: nat)
    requires u > 0
    ensures x == u * (x / u) + x % u && x % u < u
  {}

  lemma OneQuotient(u: nat, v: int, q: int, r: nat, s: nat)
    requires r < u && s < u && u * v + r == u * q + s
    ensures v == q && r == s
  {
    var k := v - q;
    assert u * k == s - r by { Subtracts(u, v, q); }
    if k > 0 { MoreThan(u, k); } else if k < 0 { MoreThan(u, -k); SignedProduct(u, k); }
  }

  lemma Subtracts(u: int, v: int, q: int)
    ensures u * (v - q) == u * v - u * q
  {}

  lemma MoreThan(u: nat, k: nat)
    requires k > 0
    ensures u * k >= u
  {}

  lemma QuoRestMeet(a: int, b: int)
    requires b != 0
    ensures a == b * Quo(a, b) + Rest(a, b)
    ensures Abs(Rest(a, b)) < Abs(b) && (Rest(a, b) != 0 ==> (Rest(a, b) < 0 <==> a < 0))
  {
    var q, r := Abs(a) / Abs(b), Abs(a) % Abs(b);
    assert Abs(a) == Abs(b) * q + r;
    SignedProduct(b, q);
  }

  lemma SignedProduct(b: int, q: int)
    ensures b * -q == -(b * q) && -b * q == -(b * q) && -b * -q == b * q
  {}

  datatype Op = Div | Divu | Rem | Remu

  /** The result each instruction must give, special cases included. */
  function Required(op: Op, x: Word, y: Word): (r: Word) {
    match op
    case Divu => if y == 0 then RANGE - 1 else x / y
    case Remu => if y == 0 then x else x % y
    case Div =>
      if y == 0 then RANGE - 1
      else if x == HALF && y == RANGE - 1 then HALF
      else Wrap32(Quo(Signed(x), Signed(y)))
    case Rem =>
      if y == 0 then x
      else if x == HALF && y == RANGE - 1 then 0
      else Wrap32(Rest(Signed(x), Signed(y)))
  }

  // ---------------------------------------------------------------- one step of long division

  /** After `i` steps of dividing `n` by `d`: the digits found so far make up `quotient`, what is left of `n`
      is `rest`, and the next digit is worth 2^(31-i). */
  ghost predicate Progress(n: nat, d: nat, i: nat, rest: nat, quotient: nat) {
    && i <= 32
    && n == quotient * d + rest
    && (d > 0 ==> rest < d * Pow2(32 - i))
    && (d == 0 ==> quotient == Pow2(32) - Pow2(32 - i))
    && Aligned(quotient, 32 - i)
    && quotient < Pow2(32)
  }

  lemma Begins(n: Word, d: nat)
    ensures Progress(n, d, 0, n, 0)
  {
    Pow2Consts();
    AlignedZero(32);
    if d > 0 { AtLeast(d, Pow2(32)); }
  }

  lemma AtLeast(d: nat, p: nat)
    requires d > 0
    ensures d * p >= p
  {}

  lemma {:induction false} AlignedZero(k: nat)
    ensures Aligned(0, k)
  {
    if k > 0 { AlignedZero(k - 1); }
  }

  /** The new digit does not overlap the ones found: setting it adds it. */
  lemma {:induction false} SetDigit(q: nat, k: nat)
    requires Aligned(q, k + 1)
    ensures Or(q, Pow2(k)) == q + Pow2(k) && Aligned(q, k) && Aligned(q + Pow2(k), k)
  {
    if k == 0 {
      if q != 0 { OrZero(q / 2); }
    } else {
      SetDigit(q / 2, k - 1);
      assert (q + Pow2(k)) / 2 == q / 2 + Pow2(k - 1);
    }
  }

  lemma Distributes(q: nat, p: nat, d: nat)
    ensures (q + p) * d == q * d + d * p
  {}

  lemma {:induction false} FitsAbove(q: nat, k: nat, width: nat)
    requires Aligned(q, k + 1) && k < width && q < Pow2(width)
    ensures q + Pow2(k) < Pow2(width)
  {
    AlignedBelow(q, k + 1, width);
  }

  /** One step: subtract and set the digit if the divisor at this place fits. */
  lemma Steps(n: nat, d: nat, i: nat, rest: nat, quotient: nat)
    requires Progress(n, d, i, rest, quotient) && i < 32
    ensures var k := 31 - i;
      if d * Pow2(k) <= rest
      then Or(quotient, Pow2(k)) == quotient + Pow2(k)
           && Progress(n, d, i + 1, rest - d * Pow2(k), quotient + Pow2(k))
      else Progress(n, d, i + 1, rest, quotient)
  {
    var k := 31 - i;
    SetDigit(quotient, k);
    FitsAbove(quotient, k, 32);
    Distributes(quotient, Pow2(k), d);
    assert d * Pow2(k + 1) == 2 * (d * Pow2(k)) by { Assoc(d, Pow2(k)); }
    if d == 0 { assert d * Pow2(k) == 0; }
  }

  /** After 32 steps nothing is left to subtract. */
  lemma Ends(n: nat, d: nat, rest: nat, quotient: nat)
    requires Progress(n, d, 32, rest, quotient)
    ensures d > 0 ==> quotient == n / d && rest == n % d
    ensures d == 0 ==> quotient == RANGE - 1 && rest == n
  {
    Pow2Consts();
    if d > 0 {
      assert d * Pow2(0) == d;
      MultipleUnique(n, d, quotient, rest);
    } else {
      assert quotient * d == 0;
    }
  }

  // ---------------------------------------------------------------- the datapath

  function InstrBit12(op: Op): (b: bool) { op == Divu || op == Remu }
  function InstrBit13(op: Op): (b: bool) { op == Rem || op == Remu }

  /** `~instr[12] & x[31] ? -x : x`. */
  function Magnitude(op: Op, x: Word): (m: Word) {
    if !InstrBit12(op) && x >= HALF then Neg(x) else x
  }

  /** `div_sign`. */
  predicate DivSign(op: Op, x: Word, y: Word) {
    !InstrBit12(op) && (if InstrBit13(op) then x >= HALF else (x >= HALF) != (y >= HALF) && y != 0)
  }

  class DivUnit {
    var dividend: Word
    var divisor: nat              // 63 bits
    var quotient: Word
    var quotientMsk: Word
    var divResult: Word

    constructor ()
    {
      dividend, divisor, quotient, quotientMsk, divResult := 0, 0, 0, 0, 0;
    }

    predicate DivstepDo()
      reads this
    {
      divisor <= dividend
    }

    /** `dividend - divisor[31:0]`, or `dividend`. */
    function DividendN(): (r: Word)
      reads this
    {
      if DivstepDo() then Wrap32(dividend - divisor % RANGE) else dividend
    }

    function QuotientN(): (r: Word)
      reads this
    {
      if DivstepDo() then Wrap32(Or(quotient, quotientMsk)) else quotient
    }

    predicate Busy()
      reads this
    {
      quotientMsk != 0
    }

    /** After `i` steps of dividing `n` by `d`. */
    ghost predicate Running(n: Word, d: Word, i: nat)
      reads this
    {
      && Progress(n, d, i, dividend, quotient)
      && (i < 32 ==> divisor == d * Pow2(31 - i) && quotientMsk == Pow2(31 - i))
      && (i == 32 ==> quotientMsk == 0)
    }

    /** The clock edge that starts a division. */
    method Load(op: Op, x: Word, y: Word)
      modifies this
      ensures Running(Magnitude(op, x), Magnitude(op, y), 0)
    {
      Pow2Consts();
      divResult := if InstrBit13(op) then DividendN() else QuotientN();
      dividend := Magnitude(op, x);
      divisor := Magnitude(op, y) * Pow2(31);
      quotient := 0;
      quotientMsk := HALF;
      Begins(dividend, Magnitude(op, y));
    }

    /** Any later clock edge. */
    method Clock(op: Op, ghost n: Word, ghost d: Word, ghost i: nat)
      requires Running(n, d, i) && i < 32
      modifies this
      ensures Running(n, d, i + 1)
      ensures divResult == if InstrBit13(op) then dividend else quotient
    {
      ClockKeeps(n, d, i, dividend, divisor, quotient, quotientMsk);
      Halve(d, 31 - i);
      var dividendN, quotientN := DividendN(), QuotientN();
      divResult := if InstrBit13(op) then dividendN else quotientN;
      dividend := dividendN;
      divisor := divisor / 2;
      quotient := quotientN;
      quotientMsk := quotientMsk / 2;
    }

    /** The value written back. */
    function AluOut(op: Op, x: Word, y: Word): (r: Word)
      reads this
    {
      if DivSign(op, x, y) then Neg(divResult) else divResult
    }

    /** A whole instruction: busy for exactly 32 clocks, then the required result is there. */
    method Divide(op: Op, x: Word, y: Word) returns (r: Word, clocks: nat)
      modifies this
      ensures clocks == 32 && !Busy()
      ensures y == 0 ==> r == if op == Div || op == Divu then 0xFFFF_FFFF else x
      ensures op == Divu && y > 0 ==> exists rest: nat :: rest < y && Meets(x, y, r, rest)
      ensures op == Remu && y > 0 ==> r < y && exists q: nat :: Meets(x, y, q, r)
      ensures x == 0x8000_0000 && y == 0xFFFF_FFFF && op == Div ==> r == 0x8000_0000
      ensures x == 0x8000_0000 && y == 0xFFFF_FFFF && op == Rem ==> r == 0
      ensures op == Div && y != 0 && !(x == 0x8000_0000 && y == 0xFFFF_FFFF) ==>
        exists rest :: Meets(Signed(x), Signed(y), Signed(r), rest)
      ensures op == Rem && y != 0 && !(x == 0x8000_0000 && y == 0xFFFF_FFFF) ==>
        exists q :: Meets(Signed(x), Signed(y), q, Signed(r))
    {
      clocks := Run(op, x, y);
      r := AluOut(op, x, y);
    }

    /** Clocks until the unit is no longer busy. */
    method Run(op: Op, x: Word, y: Word) returns (clocks: nat)
      modifies this
      ensures clocks == 32 && !Busy() && Answer(op, x, y, AluOut(op, x, y))
    {
      Load(op, x, y);
      ghost var n, d := Magnitude(op, x), Magnitude(op, y);
      clocks := 0;
      while Busy()
        invariant clocks <= 32 && Running(n, d, clocks)
        invariant clocks > 0 ==> divResult == if InstrBit13(op) then dividend else quotient
        decreases 32 - clocks
      {
        BusyTill(clocks, quotientMsk);
        Clock(op, n, d, clocks);
        clocks := clocks + 1;
      }
      BusyTill(clocks, quotientMsk);
      Ends(n, d, dividend, quotient);
      SignFix(op, x, y, dividend, quotient);
      RequiredMeets(op, x, y);
    }
  }

  /** Two's complement on 32 bits. */
  lemma SignedIs(w: Word, v: int)
    ensures Signed(w) == v <==> -0x8000_0000 <= v < 0x8000_0000 && (v == w || v == w - 0x1_0000_0000)
  {}

  /** What the manual asks of the result of each instruction. */
  ghost predicate Answer(op: Op, x: Word, y: Word, r: Word) {
    && (y == 0 ==> r == if op == Div || op == Divu then 0xFFFF_FFFF else x)
    && (op == Divu && y > 0 ==> exists rest: nat :: rest < y && Meets(x, y, r, rest))
    && (op == Remu && y > 0 ==> r < y && exists q: nat :: Meets(x, y, q, r))
    && (x == 0x8000_0000 && y == 0xFFFF_FFFF && op == Div ==> r == 0x8000_0000)
    && (x == 0x8000_0000 && y == 0xFFFF_FFFF && op == Rem ==> r == 0)
    && (y != 0 && !(x == 0x8000_0000 && y == 0xFFFF_FFFF) ==>
          && (op == Div ==> exists rest :: Meets(Signed(x), Signed(y), Signed(r), rest))
          && (op == Rem ==> exists q :: Meets(Signed(x), Signed(y), q, Signed(r))))
  }

  /** The required result is the one asked for. */
  lemma RequiredMeets(op: Op, x: Word, y: Word)
    ensures Answer(op, x, y, Required(op, x, y))
  {
    match op
    case Divu => UnsignedQuotient(x, y);
    case Remu => UnsignedRest(x, y);
    case Div => SignedQuotient(x, y);
    case Rem => SignedRest(x, y);
  }

  lemma UnsignedQuotient(x: Word, y: Word)
    ensures Answer(Divu, x, y, Required(Divu, x, y))
  {
    if y != 0 { UnsignedMeets(x, y); }
  }

  lemma UnsignedRest(x: Word, y: Word)
    ensures Answer(Remu, x, y, Required(Remu, x, y))
  {
    if y != 0 { UnsignedMeets(x, y); }
  }

  lemma SignedQuotient(x: Word, y: Word)
    ensures Answer(Div, x, y, Required(Div, x, y))
  {
    if y != 0 { SignedMeets(x, y); }
  }

  lemma SignedRest(x: Word, y: Word)
    ensures Answer(Rem, x, y, Required(Rem, x, y))
  {
    if y != 0 { SignedMeets(x, y); }
  }

  lemma UnsignedMeets(x: nat, y: nat)
    requires y > 0
    ensures x % y < y && Meets(x, y, x / y, x % y)
  {}

  lemma SignedMeets(x: Word, y: Word)
    requires y != 0
    ensures !(x == 0x8000_0000 && y == 0xFFFF_FFFF) ==>
      Meets(Signed(x), Signed(y), Signed(Required(Div, x, y)), Rest(Signed(x), Signed(y)))
    ensures !(x == 0x8000_0000 && y == 0xFFFF_FFFF) ==>
      Meets(Signed(x), Signed(y), Quo(Signed(x), Signed(y)), Signed(Required(Rem, x, y)))
  {
    var a, b := Signed(x), Signed(y);
    QuoRestMeet(a, b);
    QuoInRange(a, b);
    SignedBack(Quo(a, b));
    SignedBack(Rest(a, b));
  }

  lemma SignedBack(v: int)
    ensures -HALF <= v < HALF ==> Signed(Wrap32(v)) == v
  {}

  lemma QuoInRange(a: int, b: int)
    requires -HALF <= a < HALF && -HALF <= b < HALF && b != 0
    ensures -HALF <= Rest(a, b) < HALF && (!(a == -HALF && b == -1) ==> -HALF <= Quo(a, b) < HALF)
  {
    SmallQuotient(Abs(a), Abs(b));
    if Abs(a) == HALF {
      if Abs(b) == 1 { OverOne(HALF); } else { HalfQuotient(Abs(b)); }
    }
  }

  lemma ClockKeeps(n: Word, d: Word, i: nat, rest: Word, divisor: nat, quotient: Word, mask: Word)
    requires Progress(n, d, i, rest, quotient) && i < 32 && divisor == d * Pow2(31 - i) && mask == Pow2(31 - i)
    ensures Or(quotient, mask) < RANGE
    ensures var fits := divisor <= rest;
      Progress(n, d, i + 1, if fits then Wrap32(rest - divisor % RANGE) else rest,
               if fits then Wrap32(Or(quotient, mask)) else quotient)
  {
    Steps(n, d, i, rest, quotient);
    OrInRange(quotient, mask);
    InRange(rest, divisor);
  }

  lemma OrInRange(q: Word, mask: Word)
    ensures Or(q, mask) < RANGE && Wrap32(Or(q, mask)) == Or(q, mask)
  {
    Pow2Consts();
    OrBound(q, mask, 32);
  }

  lemma InRange(rest: Word, divisor: nat)
    ensures divisor <= rest ==> Wrap32(rest - divisor % RANGE) == rest - divisor
  {}

  lemma BusyTill(i: nat, mask: nat)
    requires i <= 32 && (if i < 32 then mask == Pow2(31 - i) else mask == 0)
    ensures mask != 0 <==> i < 32
  {}

  lemma Halve(d: nat, k: nat)
    ensures k > 0 ==> d * Pow2(k) / 2 == d * Pow2(k - 1) && Pow2(k) / 2 == Pow2(k - 1)
    ensures k == 0 ==> Pow2(k) / 2 == 0
  {
    if k > 0 { Assoc(d, Pow2(k - 1)); }
  }

  // ---------------------------------------------------------------- signs

  lemma MagnitudeIs(op: Op, x: Word)
    ensures Magnitude(op, x) == if InstrBit12(op) then x else Abs(Signed(x))
    ensures Magnitude(op, x) == 0 <==> x == 0
  {}

  /** The final sign gives the required result for all operands, zero divisors and INT_MIN / -1 included. */
  lemma SignFix(op: Op, x: Word, y: Word, rest: Word, quotient: Word)
    requires var n, d := Magnitude(op, x), Magnitude(op, y);
      if d > 0 then quotient == n / d && rest == n % d else quotient == RANGE - 1 && rest == n
    ensures var result := if InstrBit13(op) then rest else quotient;
      (if DivSign(op, x, y) then Neg(result) else result) == Required(op, x, y)
  {
    MagnitudeIs(op, x);
    MagnitudeIs(op, y);
    match op
    case Divu => {}
    case Remu => {}
    case Div => if y != 0 { FixQuotient(Signed(x), Signed(y), quotient); }
    case Rem => if y != 0 { FixRest(Signed(x), Signed(y), rest); }
  }

  /** A quotient of magnitudes below 2^31, except for INT_MIN / -1, gets the right sign. */
  lemma FixQuotient(a: int, b: int, q: Word)
    requires -HALF <= a < HALF && -HALF <= b < HALF && b != 0 && q == Abs(a) / Abs(b)
    ensures (if (a < 0) != (b < 0) then Neg(q) else q) == if a == -HALF && b == -1 then HALF else Wrap32(Quo(a, b))
  {
    SmallQuotient(Abs(a), Abs(b));
    if a == -HALF && b == -1 {
      OverOne(HALF);
    } else if q == HALF && a == -HALF && b != 1 {
      HalfQuotient(Abs(b));
    }
  }

  lemma HalfQuotient(d: nat)
    requires d > 1
    ensures HALF / d < HALF
  {
    var q := HALF / d;
    assert HALF == q * d + HALF % d;
    AtLeastTwice(q, d);
  }

  lemma AtLeastTwice(q: nat, d: nat)
    requires d >= 2
    ensures q * d >= q * 2
  {}

  lemma FixRest(a: int, b: int, r: Word)
    requires -HALF <= a < HALF && -HALF <= b < HALF && b != 0 && r == Abs(a) % Abs(b)
    ensures (if a < 0 then Neg(r) else r) == if a == -HALF && b == -1 then 0 else Wrap32(Rest(a, b))
  {
    SmallQuotient(Abs(a), Abs(b));
    if b == -1 { OverOne(Abs(a)); }
  }

  lemma OverOne(n: nat)
    ensures n / 1 == n && n % 1 == 0
  {}

  lemma SmallQuotient(n: nat, d: nat)
    ensures d > 0 ==> n / d <= n && n % d < d
  {
    if d > 0 {
      var q := n / d;
      assert n == q * d + n % d;
      AtLeast(d, q);
    }
  }
}
