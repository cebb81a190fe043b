// The period of the CRC-32 register: its generator polynomial is primitive, so x has order
// 2^32 - 1 modulo it. Powers of x with large exponents are computed by repeated squaring on
// 32-bit vectors, whose values are tied to the registers of the checksum bit by bit.

module CrcPeriod {
  import opened Division
  import opened Bits
  import opened ModularPowers
  import opened Crc32

  /** The register that stands for the polynomial 1; one shift multiplies by x. */
  const ONE: nat := 0x8000_0000
  const PERIOD: nat := 0xFFFF_FFFF

  /** x^n modulo the generator. */
  function Power(n: nat): nat {
    Shifts(ONE, n)
  }

  lemma PowerZero()
    ensures Power(0) == ONE == Value(0x8000_0000)
  {
    ValueOfOne();
  }

  lemma {:induction false} ShiftsAdd(c: nat, i: nat, j: nat)
    ensures Shifts(Shifts(c, i), j) == Shifts(c, i + j)
    decreases i
  {
    hide Shift;
    if i > 0 {
      ShiftsAdd(Shift(c), i - 1, j);
    }
  }

  lemma {:induction false} ShiftsFit(c: nat, n: nat)
    requires c < Pow2(32)
    ensures Shifts(c, n) < Pow2(32)
    decreases n
  {
    hide Shift, Pow2;
    if n > 0 {
      ShiftFits(c);
      ShiftsFit(Shift(c), n - 1);
    }
  }

  lemma {:induction false} ShiftsZero(n: nat)
    ensures Shifts(0, n) == 0
    decreases n
  {
    if n > 0 {
      ShiftEven(0);
      ShiftsZero(n - 1);
    }
  }

  lemma XorAssoc(a: nat, b: nat, c: nat)
    ensures Xor(Xor(a, b), c) == Xor(a, Xor(b, c))
  {
    hide Xor;
    XorExchange(a, b, 0, c);
    ZeroXor(c);
    XorZero(a);
  }

  // Squaring ------------------------------------------------------------------

  function Term(v: nat): nat {
    if v % 2 == 1 then ONE else 0
  }

  /** The square of a polynomial, from the coefficient of its highest degree down: the
      lowest bit is that of x^31. */
  function Squaring(v: nat, acc: nat, n: nat): nat
    decreases n
  {
    if n == 0 then acc else Squaring(v / 2, Xor(Shifts(acc, 2), Term(v)), n - 1)
  }

  function Square(v: nat): nat {
    Squaring(v, 0, 32)
  }

  lemma {:induction false} FirstTerm(v: nat, n: nat)
    requires n > 0
    ensures Squaring(v, 0, n) == Xor(Shifts(Term(v), 2 * n - 2), Squaring(v / 2, 0, n - 1))
    decreases n, 0
  {
    hide Xor, Shifts, Term;
    ShiftsZero(2);
    ZeroXor(Term(v));
    SquaringSplit(v / 2, Term(v), n - 1);
  }

  lemma {:induction false} SquaringSplit(v: nat, acc: nat, n: nat)
    ensures Squaring(v, acc, n) == Xor(Shifts(acc, 2 * n), Squaring(v, 0, n))
    decreases n, 1
  {
    hide Xor, Term, Shifts;
    NoShifts(acc);
    XorZero(acc);
    if n > 0 {
      var u, rest := Term(v), Squaring(v / 2, 0, n - 1);
      SquaringSplit(v / 2, Xor(Shifts(acc, 2), u), n - 1);
      ShiftsLinear(Shifts(acc, 2), u, 2 * n - 2);
      ShiftsAdd(acc, 2, 2 * n - 2);
      FirstTerm(v, n);
      XorAssoc(Shifts(acc, 2 * n), Shifts(u, 2 * n - 2), rest);
    }
  }

  lemma TermLinear(a: nat, b: nat)
    ensures Term(Xor(a, b)) == Xor(Term(a), Term(b))
  {
    hide Xor;
    XorHalves(a, b);
    XorZero(ONE);
    XorZero(0);
    ZeroXor(ONE);
    XorSelf(ONE);
  }

  lemma {:induction false} SquaringLinear(a: nat, b: nat, n: nat)
    ensures Squaring(Xor(a, b), 0, n) == Xor(Squaring(a, 0, n), Squaring(b, 0, n))
    decreases n
  {
    hide Xor, Term, Shifts;
    if n == 0 {
      XorZero(0);
    } else {
      FirstTerm(a, n);
      FirstTerm(b, n);
      FirstTerm(Xor(a, b), n);
      TermLinear(a, b);
      ShiftsLinear(Term(a), Term(b), 2 * n - 2);
      XorHalves(a, b);
      SquaringLinear(a / 2, b / 2, n - 1);
      XorExchange(Shifts(Term(a), 2 * n - 2), Shifts(Term(b), 2 * n - 2),
                  Squaring(a / 2, 0, n - 1), Squaring(b / 2, 0, n - 1));
    }
  }

  /** One bit more than there is shifts the square twice. */
  lemma {:induction false} SquaringMore(v: nat, n: nat)
    requires v < Pow2(n)
    ensures Squaring(v, 0, n + 1) == Shifts(Squaring(v, 0, n), 2)
    decreases n
  {
    hide Xor, Shifts, Term;
    FirstTerm(v, n + 1);
    if n == 0 {
      NoTerm();
      ShiftsZero(0);
      ShiftsZero(2);
      XorZero(0);
      assert Squaring(0, 0, 0) == 0;
    } else {
      FirstTerm(v, n);
      SquaringMore(v / 2, n - 1);
      ShiftsLinear(Shifts(Term(v), 2 * n - 2), Squaring(v / 2, 0, n - 1), 2);
      ShiftsAdd(Term(v), 2 * n - 2, 2);
    }
  }

  lemma NoTerm()
    ensures Term(0) == 0
  {
  }

  lemma SquareOfNothing()
    ensures Square(0) == 0
  {
    hide Xor, Squaring;
    SquaringLinear(0, 0, 32);
    XorSelf(Square(0));
    XorZero(0);
  }

  /** Multiplying by x multiplies the square by x twice. */
  lemma SquareShift(v: nat)
    requires v < Pow2(32)
    ensures Square(Shift(v)) == Shifts(Square(v), 2)
  {
    assert v / 2 < Pow2(31);
    assert Shift(v) == Xor(v / 2, Feedback(v));
    hide Xor, Squaring, Shifts, Pow2, Shift;
    SquaringLinear(v / 2, Feedback(v), 32);
    SquaringMore(v / 2, 31);
    FirstTerm(v, 32);
    ShiftsLinear(Shifts(Term(v), 62), Squaring(v / 2, 0, 31), 2);
    ShiftsAdd(Term(v), 62, 2);
    SquareOfNothing();
    SquareOfGenerator();
    ShiftsZero(64);
    var a, b := Shifts(Squaring(v / 2, 0, 31), 2), Shifts(Term(v), 64);
    XorSwap(a, b);
  }

  lemma XorSwap(a: nat, b: nat)
    ensures Xor(a, b) == Xor(b, a)
  {
    hide Xor;
    XorExchange(0, a, b, 0);
    ZeroXor(a);
    XorZero(b);
    ZeroXor(b);
    XorZero(a);
  }

  lemma {:induction false} SquarePower(n: nat)
    ensures Square(Power(n)) == Power(2 * n)
  {
    hide Shift, Shifts, Square, Pow2;
    if n == 0 {
      SquareOfOne();
      NoShifts(ONE);
    } else {
      SquarePower(n - 1);
      ShiftsSnoc(ONE, n - 1);
      WordSize();
      ShiftsFit(ONE, n - 1);
      SquareShift(Power(n - 1));
      ShiftsAdd(ONE, 2 * n - 2, 2);
    }
  }

  // On 32-bit vectors ---------------------------------------------------------

  function Half(w: bv32): bv32 {
    w >> 1
  }

  predicate Odd(w: bv32) {
    w & 1 != 0
  }

  function Plus(a: bv32, b: bv32): bv32 {
    a ^ b
  }

  function Value(w: bv32): nat
    decreases w
  {
    if w == 0 then 0 else 2 * Value(Half(w)) + (if Odd(w) then 1 else 0)
  }

  lemma ValueHalves(w: bv32)
    ensures Value(Half(w)) == Value(w) / 2 && Value(w) % 2 == if Odd(w) then 1 else 0
  {
  }

  lemma {:induction false} ValueZero(w: bv32)
    ensures Value(w) == 0 <==> w == 0
    decreases w
  {
    if w != 0 {
      ValueZero(Half(w));
    }
  }

  lemma {:induction false} ValueUnique(a: bv32, b: bv32)
    requires Value(a) == Value(b)
    ensures a == b
    decreases Value(a)
  {
    hide Value, Half, Odd;
    ValueZero(a);
    ValueZero(b);
    if a != 0 {
      ValueHalves(a);
      ValueHalves(b);
      ValueUnique(Half(a), Half(b));
      SameWord(a, b);
    }
  }

  lemma SameWord(a: bv32, b: bv32)
    requires Half(a) == Half(b) && (Odd(a) <==> Odd(b))
    ensures a == b
  {
  }

  lemma PlusHalves(a: bv32, b: bv32)
    ensures Half(Plus(a, b)) == Plus(Half(a), Half(b))
    ensures Odd(Plus(a, b)) <==> Odd(a) != Odd(b)
    ensures Plus(0, 0) == 0
  {
  }

  lemma {:induction false} ValuePlus(a: bv32, b: bv32)
    ensures Value(Plus(a, b)) == Xor(Value(a), Value(b))
    decreases Value(a) + Value(b)
  {
    hide Value, Xor, Half, Odd, Plus;
    ValueZero(a);
    ValueZero(b);
    PlusHalves(a, b);
    XorHalves(Value(a), Value(b));
    if Value(a) == 0 && Value(b) == 0 {
      XorZero(0);
    } else {
      ValueHalves(a);
      ValueHalves(b);
      ValueHalves(Plus(a, b));
      ValuePlus(Half(a), Half(b));
    }
  }

  lemma ValueOfGenerator()
    ensures Value(0xEDB8_8320) == POLYNOMIAL
  {
    assert Value(0x1) == 0x1;
    assert Value(0x3) == 0x3;
    assert Value(0x7) == 0x7;
    assert Value(0xE) == 0xE;
    assert Value(0x1D) == 0x1D;
    assert Value(0x3B) == 0x3B;
    assert Value(0x76) == 0x76;
    assert Value(0xED) == 0xED;
    assert Value(0x1DB) == 0x1DB;
    assert Value(0x3B6) == 0x3B6;
    assert Value(0x76D) == 0x76D;
    assert Value(0xEDB) == 0xEDB;
    assert Value(0x1DB7) == 0x1DB7;
    assert Value(0x3B6E) == 0x3B6E;
    assert Value(0x76DC) == 0x76DC;
    assert Value(0xEDB8) == 0xEDB8;
    assert Value(0x1DB71) == 0x1DB71;
    assert Value(0x3B6E2) == 0x3B6E2;
    assert Value(0x76DC4) == 0x76DC4;
    assert Value(0xEDB88) == 0xEDB88;
    assert Value(0x1DB710) == 0x1DB710;
    assert Value(0x3B6E20) == 0x3B6E20;
    assert Value(0x76DC41) == 0x76DC41;
    assert Value(0xEDB883) == 0xEDB883;
    assert Value(0x1DB7106) == 0x1DB7106;
    assert Value(0x3B6E20C) == 0x3B6E20C;
    assert Value(0x76DC419) == 0x76DC419;
    assert Value(0xEDB8832) == 0xEDB8832;
    assert Value(0x1DB71064) == 0x1DB71064;
    assert Value(0x3B6E20C8) == 0x3B6E20C8;
    assert Value(0x76DC4190) == 0x76DC4190;
    assert Value(0xEDB88320) == 0xEDB88320;
  }

  lemma ValueOfOne()
    ensures Value(0x8000_0000) == ONE
  {
    assert Value(0x1) == 0x1;
    assert Value(0x2) == 0x2;
    assert Value(0x4) == 0x4;
    assert Value(0x8) == 0x8;
    assert Value(0x10) == 0x10;
    assert Value(0x20) == 0x20;
    assert Value(0x40) == 0x40;
    assert Value(0x80) == 0x80;
    assert Value(0x100) == 0x100;
    assert Value(0x200) == 0x200;
    assert Value(0x400) == 0x400;
    assert Value(0x800) == 0x800;
    assert Value(0x1000) == 0x1000;
    assert Value(0x2000) == 0x2000;
    assert Value(0x4000) == 0x4000;
    assert Value(0x8000) == 0x8000;
    assert Value(0x10000) == 0x10000;
    assert Value(0x20000) == 0x20000;
    assert Value(0x40000) == 0x40000;
    assert Value(0x80000) == 0x80000;
    assert Value(0x100000) == 0x100000;
    assert Value(0x200000) == 0x200000;
    assert Value(0x400000) == 0x400000;
    assert Value(0x800000) == 0x800000;
    assert Value(0x1000000) == 0x1000000;
    assert Value(0x2000000) == 0x2000000;
    assert Value(0x4000000) == 0x4000000;
    assert Value(0x8000000) == 0x8000000;
    assert Value(0x10000000) == 0x10000000;
    assert Value(0x20000000) == 0x20000000;
    assert Value(0x40000000) == 0x40000000;
    assert Value(0x80000000) == 0x80000000;
  }

  function ShiftWord(w: bv32): bv32 {
    (w >> 1) ^ (if w & 1 != 0 then 0xEDB8_8320 else 0)
  }

  lemma ValueShift(w: bv32)
    ensures Value(ShiftWord(w)) == Shift(Value(w))
  {
    var f: bv32 := if Odd(w) then 0xEDB8_8320 else 0;
    assert ShiftWord(w) == Plus(Half(w), f);
    hide Value, Xor, Half, Odd, Plus, ShiftWord;
    ValueHalves(w);
    ValueOfGenerator();
    ValueZero(0);
    ValuePlus(Half(w), f);
  }

  function Two(w: bv32): bv32 {
    ShiftWord(ShiftWord(w))
  }

  function Four(w: bv32): bv32 {
    ShiftWord(ShiftWord(ShiftWord(ShiftWord(w))))
  }

  function Eight(w: bv32): bv32 {
    ShiftWord(ShiftWord(ShiftWord(ShiftWord(ShiftWord(ShiftWord(ShiftWord(ShiftWord(w))))))))
  }

  /** The value after one more shift. */
  lemma Next(w: bv32, c: nat, n: nat)
    requires Value(w) == Shifts(c, n)
    ensures Value(ShiftWord(w)) == Shifts(c, n + 1)
  {
    hide Value, Shift, Shifts, ShiftWord;
    ValueShift(w);
    ShiftsSnoc(c, n);
  }

  lemma ValueTwo(w: bv32)
    ensures Value(Two(w)) == Shifts(Value(w), 2)
  {
    hide Value, Shifts, ShiftWord;
    NoShifts(Value(w));
    Next(w, Value(w), 0);
    Next(ShiftWord(w), Value(w), 1);
  }

  lemma ValueFour(w: bv32)
    ensures Value(Four(w)) == Shifts(Value(w), 4)
  {
    assert Four(w) == Two(Two(w));
    hide Value, Shifts, Two, Four;
    ValueTwo(w);
    ValueTwo(Two(w));
    ShiftsAdd(Value(w), 2, 2);
  }

  lemma ValueEight(w: bv32)
    ensures Value(Eight(w)) == Shifts(Value(w), 8)
  {
    assert Eight(w) == Four(Four(w));
    hide Value, Shifts, Four, Eight;
    ValueFour(w);
    ValueFour(Four(w));
    ShiftsAdd(Value(w), 4, 4);
  }

  /** The word after d shifts, for the digits that are needed. */
  function Advance(w: bv32, d: nat): bv32 {
    if d == 0 then w
    else if d == 3 then ShiftWord(Two(w))
    else if d == 5 then ShiftWord(Four(w))
    else ShiftWord(Two(Four(Eight(w))))
  }

  lemma ValueAdvance(w: bv32, d: nat)
    requires d in {0, 3, 5, 15}
    ensures Value(Advance(w, d)) == Shifts(Value(w), d)
  {
    hide Value, Shift, Shifts, ShiftWord, Two, Four, Eight;
    var v := Value(w);
    NoShifts(v);
    if d == 3 {
      ValueTwo(w);
      Next(Two(w), v, 2);
    } else if d == 5 {
      ValueFour(w);
      Next(Four(w), v, 4);
    } else if d == 15 {
      ValueEight(w);
      ValueFour(Eight(w));
      ValueTwo(Four(Eight(w)));
      ShiftsAdd(v, 8, 4);
      ShiftsAdd(v, 12, 2);
      Next(Two(Four(Eight(w))), v, 14);
    }
  }

  function Add(bit: bool, x: bv32, rest: bv32): bv32 {
    (if bit then x else 0) ^ rest
  }

  /** The part of a square that the eight lowest bits of u contribute, with the squares of
      their monomials, added to the rest. */
  function EightBits(u: bv32, x0: bv32, x1: bv32, x2: bv32, x3: bv32,
                     x4: bv32, x5: bv32, x6: bv32, x7: bv32, rest: bv32): bv32 {
    Add(u & 0x01 != 0, x0, Add(u & 0x02 != 0, x1,
    Add(u & 0x04 != 0, x2, Add(u & 0x08 != 0, x3,
    Add(u & 0x10 != 0, x4, Add(u & 0x20 != 0, x5,
    Add(u & 0x40 != 0, x6, Add(u & 0x80 != 0, x7,
    rest))))))))
  }

  function Byte0(u: bv32, rest: bv32): bv32 {
    EightBits(u, 0xAA09_C88B, 0xC5B4_28EF, 0xA032_AF3E, 0xED59_B63B,
      0x0384_D46E, 0x0E13_51B8, 0x384D_46E0, 0xE135_1B80, rest)
  }

  function Byte1(u: bv32, rest: bv32): bv32 {
    EightBits(u, 0x3236_6282, 0xC8D9_8A08, 0x9584_24A2, 0x3B83_984B,
      0xEE0E_612C, 0x0EDB_8832, 0x3B6E_20C8, 0xEDB8_8320, rest)
  }

  function Byte2(u: bv32, rest: bv32): bv32 {
    EightBits(u, 0x0000_0002, 0x0000_0008, 0x0000_0020, 0x0000_0080,
      0x0000_0200, 0x0000_0800, 0x0000_2000, 0x0000_8000, rest)
  }

  function Byte3(u: bv32, rest: bv32): bv32 {
    EightBits(u, 0x0002_0000, 0x0008_0000, 0x0020_0000, 0x0080_0000,
      0x0200_0000, 0x0800_0000, 0x2000_0000, 0x8000_0000, rest)
  }

  function SquareWord(w: bv32): bv32 {
    Byte0(w, Byte1(w >> 8, Byte2(w >> 16, Byte3(w >> 24, 0))))
  }

  lemma LowBits8(u: bv32)
    ensures var u1 := Half(u); var u2 := Half(u1); var u3 := Half(u2); var u4 := Half(u3);
            var u5 := Half(u4); var u6 := Half(u5); var u7 := Half(u6);
            && (u & 0x01 != 0 <==> Odd(u)) && (u & 0x02 != 0 <==> Odd(u1)) && (u & 0x04 != 0 <==> Odd(u2))
            && (u & 0x08 != 0 <==> Odd(u3)) && (u & 0x10 != 0 <==> Odd(u4)) && (u & 0x20 != 0 <==> Odd(u5))
            && (u & 0x40 != 0 <==> Odd(u6)) && (u & 0x80 != 0 <==> Odd(u7)) && Half(u7) == u >> 8
  {
  }

  /** One bit of the argument: u is what is left of it from that bit on. */
  lemma PickBit(u: bv32, x: bv32, rest: bv32, n: nat)
    requires n > 0 && Value(x) == Power(2 * n - 2)
    requires Value(rest) == Squaring(Value(Half(u)), 0, n - 1)
    ensures Value(Add(Odd(u), x, rest)) == Squaring(Value(u), 0, n)
  {
    var y: bv32 := if Odd(u) then x else 0;
    assert Add(Odd(u), x, rest) == Plus(y, rest);
    hide Value, Half, Odd, Plus, Add, Shifts, Xor;
    ValueHalves(u);
    ValueZero(0);
    ValuePlus(y, rest);
    FirstTerm(Value(u), n);
    ShiftsZero(2 * n - 2);
  }

  lemma ValueEightBits(u: bv32, x0: bv32, x1: bv32, x2: bv32, x3: bv32,
                       x4: bv32, x5: bv32, x6: bv32, x7: bv32, rest: bv32, n: nat)
    requires n >= 8 && Value(rest) == Squaring(Value(u >> 8), 0, n - 8)
    requires Value(x0) == Power(2 * n - 2) && Value(x1) == Power(2 * n - 4) && Value(x2) == Power(2 * n - 6)
    requires Value(x3) == Power(2 * n - 8) && Value(x4) == Power(2 * n - 10) && Value(x5) == Power(2 * n - 12)
    requires Value(x6) == Power(2 * n - 14) && Value(x7) == Power(2 * n - 16)
    ensures Value(EightBits(u, x0, x1, x2, x3, x4, x5, x6, x7, rest)) == Squaring(Value(u), 0, n)
  {
    hide Value, Squaring, Power, Plus, Add, Half, Odd;
    LowBits8(u);
    var u1 := Half(u);
    var u2 := Half(u1);
    var u3 := Half(u2);
    var u4 := Half(u3);
    var u5 := Half(u4);
    var u6 := Half(u5);
    var u7 := Half(u6);
    var r7 := Add(Odd(u7), x7, rest);
    var r6 := Add(Odd(u6), x6, r7);
    var r5 := Add(Odd(u5), x5, r6);
    var r4 := Add(Odd(u4), x4, r5);
    var r3 := Add(Odd(u3), x3, r4);
    var r2 := Add(Odd(u2), x2, r3);
    var r1 := Add(Odd(u1), x1, r2);
    PickBit(u7, x7, rest, n - 7);
    PickBit(u6, x6, r7, n - 6);
    PickBit(u5, x5, r6, n - 5);
    PickBit(u4, x4, r5, n - 4);
    PickBit(u3, x3, r4, n - 3);
    PickBit(u2, x2, r3, n - 2);
    PickBit(u1, x1, r2, n - 1);
    PickBit(u, x0, r1, n);
  }

  lemma ValueSquare(w: bv32)
    ensures Value(SquareWord(w)) == Square(Value(w))
  {
    ValueZero(0);
    Bytes(w);
    hide EightBits, Value, Squaring, Power;
    NoSquaring(0);
    EvenPowers0();
    EvenPowers1();
    EvenPowers2();
    EvenPowers3();
    var a := Byte3(w >> 24, 0);
    var b := Byte2(w >> 16, a);
    var c := Byte1(w >> 8, b);
    ValueEightBits(w >> 24, 0x0002_0000, 0x0008_0000, 0x0020_0000, 0x0080_0000,
      0x0200_0000, 0x0800_0000, 0x2000_0000, 0x8000_0000, 0, 8);
    ValueEightBits(w >> 16, 0x0000_0002, 0x0000_0008, 0x0000_0020, 0x0000_0080,
      0x0000_0200, 0x0000_0800, 0x0000_2000, 0x0000_8000, a, 16);
    ValueEightBits(w >> 8, 0x3236_6282, 0xC8D9_8A08, 0x9584_24A2, 0x3B83_984B,
      0xEE0E_612C, 0x0EDB_8832, 0x3B6E_20C8, 0xEDB8_8320, b, 24);
    ValueEightBits(w, 0xAA09_C88B, 0xC5B4_28EF, 0xA032_AF3E, 0xED59_B63B,
      0x0384_D46E, 0x0E13_51B8, 0x384D_46E0, 0xE135_1B80, c, 32);
  }

  lemma Bytes(w: bv32)
    ensures (w >> 8) >> 8 == w >> 16 && (w >> 16) >> 8 == w >> 24 && (w >> 24) >> 8 == 0
  {
  }

  lemma NoSquaring(v: nat)
    ensures Squaring(v, 0, 0) == 0
  {
  }

  lemma SquareOfOne()
    ensures Square(ONE) == ONE
  {
    hide Square, Value;
    ValueOfOne();
    ValueSquare(0x8000_0000);
  }

  /** The generator stands for x^32, and its square for x^64. */
  lemma SquareOfGenerator()
    ensures Square(POLYNOMIAL) == Shifts(ONE, 64)
  {
    hide Square, Value, Shifts;
    ValueOfGenerator();
    ValueSquare(0xEDB8_8320);
    EvenPowers3();
    ValueTwo(0xAA09_C88B);
    ShiftsAdd(ONE, 62, 2);
    assert Two(0xAA09_C88B) == SquareWord(0xEDB8_8320);
  }

  lemma EvenPowers0()
    ensures Power(0) == Value(0x8000_0000)
    ensures Power(2) == Value(0x2000_0000)
    ensures Power(4) == Value(0x0800_0000)
    ensures Power(6) == Value(0x0200_0000)
    ensures Power(8) == Value(0x0080_0000)
    ensures Power(10) == Value(0x0020_0000)
    ensures Power(12) == Value(0x0008_0000)
    ensures Power(14) == Value(0x0002_0000)
  {
    hide Power, Value, Shifts;
    PowerZero();
    NextEven(0, 0x8000_0000, 0x2000_0000);
    NextEven(2, 0x2000_0000, 0x0800_0000);
    NextEven(4, 0x0800_0000, 0x0200_0000);
    NextEven(6, 0x0200_0000, 0x0080_0000);
    NextEven(8, 0x0080_0000, 0x0020_0000);
    NextEven(10, 0x0020_0000, 0x0008_0000);
    NextEven(12, 0x0008_0000, 0x0002_0000);
  }

  lemma EvenPowers1()
    ensures Power(16) == Value(0x0000_8000)
    ensures Power(18) == Value(0x0000_2000)
    ensures Power(20) == Value(0x0000_0800)
    ensures Power(22) == Value(0x0000_0200)
    ensures Power(24) == Value(0x0000_0080)
    ensures Power(26) == Value(0x0000_0020)
    ensures Power(28) == Value(0x0000_0008)
    ensures Power(30) == Value(0x0000_0002)
  {
    hide Power, Value, Shifts;
    EvenPowers0();
    NextEven(14, 0x0002_0000, 0x0000_8000);
    NextEven(16, 0x0000_8000, 0x0000_2000);
    NextEven(18, 0x0000_2000, 0x0000_0800);
    NextEven(20, 0x0000_0800, 0x0000_0200);
    NextEven(22, 0x0000_0200, 0x0000_0080);
    NextEven(24, 0x0000_0080, 0x0000_0020);
    NextEven(26, 0x0000_0020, 0x0000_0008);
    NextEven(28, 0x0000_0008, 0x0000_0002);
  }

  lemma EvenPowers2()
    ensures Power(32) == Value(0xEDB8_8320)
    ensures Power(34) == Value(0x3B6E_20C8)
    ensures Power(36) == Value(0x0EDB_8832)
    ensures Power(38) == Value(0xEE0E_612C)
    ensures Power(40) == Value(0x3B83_984B)
    ensures Power(42) == Value(0x9584_24A2)
    ensures Power(44) == Value(0xC8D9_8A08)
    ensures Power(46) == Value(0x3236_6282)
  {
    hide Power, Value, Shifts;
    EvenPowers1();
    NextEven(30, 0x0000_0002, 0xEDB8_8320);
    NextEven(32, 0xEDB8_8320, 0x3B6E_20C8);
    NextEven(34, 0x3B6E_20C8, 0x0EDB_8832);
    NextEven(36, 0x0EDB_8832, 0xEE0E_612C);
    NextEven(38, 0xEE0E_612C, 0x3B83_984B);
    NextEven(40, 0x3B83_984B, 0x9584_24A2);
    NextEven(42, 0x9584_24A2, 0xC8D9_8A08);
    NextEven(44, 0xC8D9_8A08, 0x3236_6282);
  }

  lemma EvenPowers3()
    ensures Power(48) == Value(0xE135_1B80)
    ensures Power(50) == Value(0x384D_46E0)
    ensures Power(52) == Value(0x0E13_51B8)
    ensures Power(54) == Value(0x0384_D46E)
    ensures Power(56) == Value(0xED59_B63B)
    ensures Power(58) == Value(0xA032_AF3E)
    ensures Power(60) == Value(0xC5B4_28EF)
    ensures Power(62) == Value(0xAA09_C88B)
  {
    hide Power, Value, Shifts;
    EvenPowers2();
    NextEven(46, 0x3236_6282, 0xE135_1B80);
    NextEven(48, 0xE135_1B80, 0x384D_46E0);
    NextEven(50, 0x384D_46E0, 0x0E13_51B8);
    NextEven(52, 0x0E13_51B8, 0x0384_D46E);
    NextEven(54, 0x0384_D46E, 0xED59_B63B);
    NextEven(56, 0xED59_B63B, 0xA032_AF3E);
    NextEven(58, 0xA032_AF3E, 0xC5B4_28EF);
    NextEven(60, 0xC5B4_28EF, 0xAA09_C88B);
  }

  lemma NextEven(n: nat, w: bv32, r: bv32)
    requires Power(n) == Value(w) && Two(w) == r
    ensures Power(n + 2) == Value(r)
  {
    hide Value, Shifts, Two;
    ValueTwo(w);
    ShiftsAdd(ONE, n, 2);
  }

  // The certificate -----------------------------------------------------------

  /** One hexadecimal digit of the exponent: four squarings and d shifts. */
  lemma AppendDigit(e: nat, w: bv32, s: bv32, d: nat, r: bv32)
    requires Power(e) == Value(w) && d in {0, 3, 5, 15}
    requires SquareWord(SquareWord(SquareWord(SquareWord(w)))) == s && Advance(s, d) == r
    ensures Power(16 * e + d) == Value(r)
  {
    hide Value, SquareWord, Advance, Square, Shifts;
    ValueSquare(w);
    ValueSquare(SquareWord(w));
    ValueSquare(SquareWord(SquareWord(w)));
    ValueSquare(SquareWord(SquareWord(SquareWord(w))));
    SquarePower(e);
    SquarePower(2 * e);
    SquarePower(4 * e);
    SquarePower(8 * e);
    ValueAdvance(s, d);
    ShiftsAdd(ONE, 16 * e, d);
  }

  lemma NotOne(w: bv32)
    requires w != 0x8000_0000
    ensures Value(w) != ONE
  {
    hide Value;
    ValueOfOne();
    if Value(w) == ONE {
      ValueUnique(w, 0x8000_0000);
    }
  }

  lemma Power3()
    ensures Power(0x5555_5555) != ONE
  {
    hide Power, Value;
    PowerZero();
    AppendDigit(0x0, 0x8000_0000, 0x8000_0000, 5, 0x0400_0000);
    AppendDigit(0x5, 0x0400_0000, 0x8816_EAF2, 5, 0xF44F_2413);
    AppendDigit(0x55, 0xF44F_2413, 0xFA07_B12C, 5, 0x4A62_5CD1);
    AppendDigit(0x555, 0x4A62_5CD1, 0xC314_AD50, 5, 0xEBA0_264A);
    AppendDigit(0x5555, 0xEBA0_264A, 0xBB4F_67BE, 5, 0xB867_8921);
    AppendDigit(0x5_5555, 0xB867_8921, 0x3D15_E4ED, 5, 0x4281_464D);
    AppendDigit(0x55_5555, 0x4281_464D, 0x79EC_53B8, 5, 0x98AB_A02D);
    AppendDigit(0x555_5555, 0x98AB_A02D, 0x519A_1D97, 5, 0xC736_EB52);
    NotOne(0xC736_EB52);
  }

  lemma Power5()
    ensures Power(0x3333_3333) != ONE
  {
    hide Power, Value;
    PowerZero();
    AppendDigit(0x0, 0x8000_0000, 0x8000_0000, 3, 0x1000_0000);
    AppendDigit(0x3, 0x1000_0000, 0xE135_1B80, 3, 0x1C26_A370);
    AppendDigit(0x33, 0x1C26_A370, 0xD8DA_498B, 3, 0x56A9_2869);
    AppendDigit(0x333, 0x56A9_2869, 0xBBF9_F8FD, 3, 0xC1A9_9CF7);
    AppendDigit(0x3333, 0xC1A9_9CF7, 0x022E_2591, 3, 0x3B2B_E47A);
    AppendDigit(0x3_3333, 0x3B2B_E47A, 0x838F_1ACD, 3, 0xC6A7_40B1);
    AppendDigit(0x33_3333, 0xC6A7_40B1, 0x3EAA_4710, 3, 0x07D5_48E2);
    AppendDigit(0x333_3333, 0x07D5_48E2, 0xFB2E_8646, 3, 0x8401_1278);
    NotOne(0x8401_1278);
  }

  lemma Power17()
    ensures Power(0xF0F_0F0F) != ONE
  {
    hide Power, Value;
    PowerZero();
    AppendDigit(0x0, 0x8000_0000, 0x8000_0000, 15, 0x0001_0000);
    AppendDigit(0xF, 0x0001_0000, 0x9E36_506B, 0, 0x9E36_506B);
    AppendDigit(0xF0, 0x9E36_506B, 0x8AB1_4358, 15, 0xE01F_9DCF);
    AppendDigit(0xF0F, 0xE01F_9DCF, 0x8684_60B5, 0, 0x8684_60B5);
    AppendDigit(0xF0F0, 0x8684_60B5, 0xCF05_BB2E, 15, 0xAF69_585A);
    AppendDigit(0xF_0F0F, 0xAF69_585A, 0xF1D3_1CA2, 0, 0xF1D3_1CA2);
    AppendDigit(0xF0_F0F0, 0xF1D3_1CA2, 0xA7B7_1E8F, 15, 0x8C28_3CA0);
    NotOne(0x8C28_3CA0);
  }

  lemma Power257()
    ensures Power(0xFF_00FF) != ONE
  {
    hide Power, Value;
    PowerZero();
    AppendDigit(0x0, 0x8000_0000, 0x8000_0000, 15, 0x0001_0000);
    AppendDigit(0xF, 0x0001_0000, 0x9E36_506B, 15, 0x01B5_FD1D);
    AppendDigit(0xFF, 0x01B5_FD1D, 0xF4E5_307F, 0, 0xF4E5_307F);
    AppendDigit(0xFF0, 0xF4E5_307F, 0x3EF5_34D3, 0, 0x3EF5_34D3);
    AppendDigit(0xFF00, 0x3EF5_34D3, 0x67D3_610D, 15, 0xC547_96E1);
    AppendDigit(0xF_F00F, 0xC547_96E1, 0x1B4E_BDF6, 15, 0x351C_22C9);
    NotOne(0x351C_22C9);
  }

  lemma Power65537()
    ensures Power(0xFFFF) != ONE
  {
    hide Power, Value;
    PowerZero();
    AppendDigit(0x0, 0x8000_0000, 0x8000_0000, 15, 0x0001_0000);
    AppendDigit(0xF, 0x0001_0000, 0x9E36_506B, 15, 0x01B5_FD1D);
    AppendDigit(0xFF, 0x01B5_FD1D, 0xF4E5_307F, 15, 0xC78C_44A1);
    AppendDigit(0xFFF, 0xC78C_44A1, 0x1B0C_3435, 15, 0xDC7B_5C5F);
    NotOne(0xDC7B_5C5F);
  }

  lemma PowerAll()
    ensures Power(0xFFFF_FFFF) == ONE
  {
    hide Power, Value;
    PowerZero();
    AppendDigit(0x0, 0x8000_0000, 0x8000_0000, 15, 0x0001_0000);
    AppendDigit(0xF, 0x0001_0000, 0x9E36_506B, 15, 0x01B5_FD1D);
    AppendDigit(0xFF, 0x01B5_FD1D, 0xF4E5_307F, 15, 0xC78C_44A1);
    AppendDigit(0xFFF, 0xC78C_44A1, 0x1B0C_3435, 15, 0xDC7B_5C5F);
    AppendDigit(0xFFFF, 0xDC7B_5C5F, 0x551C_76F2, 15, 0xE4A9_0215);
    AppendDigit(0xF_FFFF, 0xE4A9_0215, 0x8E7E_DF0C, 15, 0xAEC3_1A2F);
    AppendDigit(0xFF_FFFF, 0xAEC3_1A2F, 0x0C4A_B738, 15, 0x8535_2D3C);
    AppendDigit(0xFFF_FFFF, 0x8535_2D3C, 0x6B89_29AC, 15, 0x8000_0000);
  }

  // The order of x ------------------------------------------------------------

  ghost predicate Returns(n: nat) {
    Power(n) == ONE
  }

  /** The prime factors of 2^32 - 1. */
  const FACTORS: seq<nat> := [3, 5, 17, 257, 65537]

  lemma PeriodReturns(n: nat)
    requires n == PERIOD
    ensures Returns(n)
  {
    hide Power;
    PowerAll();
  }

  lemma NotSooner(q: nat, m: nat)
    requires q in FACTORS && m * q == PERIOD
    ensures !Returns(m)
  {
    hide Power;
    if q == 3 {
      Power3();
    } else if q == 5 {
      Power5();
    } else if q == 17 {
      Power17();
    } else if q == 257 {
      Power257();
    } else {
      Power65537();
    }
  }

  lemma ReturnsSubtract(n: nat, k: nat)
    requires k <= n && Returns(n) && Returns(k)
    ensures Returns(n - k)
  {
    hide Shifts;
    ShiftsAdd(ONE, k, n - k);
  }

  lemma {:induction false} ReturnsMultiple(d: nat, k: nat, m: nat)
    requires Returns(d) && m == d * k
    ensures Returns(m)
    decreases k
  {
    hide Shifts;
    if k == 0 {
      NoShifts(ONE);
    } else {
      assert m == d + d * (k - 1);
      ReturnsMultiple(d, k - 1, m - d);
      ShiftsAdd(ONE, d, m - d);
    }
  }

  ghost predicate IsLeastReturn(d: nat) {
    0 < d && Returns(d) && forall k :: 0 < k < d ==> !Returns(k)
  }

  lemma {:induction false} LeastReturn(n: nat) returns (d: nat)
    requires 0 < n && Returns(n)
    ensures IsLeastReturn(d) && d <= n
  {
    hide Returns;
    if k :| 0 < k < n && Returns(k) {
      d := LeastReturn(k);
    } else {
      d := n;
    }
  }

  lemma {:induction false} ReturnsAtMultiples(d: nat, n: nat)
    requires IsLeastReturn(d) && Returns(n)
    ensures n % d == 0
  {
    hide Returns;
    if d <= n {
      ReturnsSubtract(n, d);
      ReturnsAtMultiples(d, n - d);
      RemainderUnique(n, (n - d) / d + 1, 0, d);
    }
  }

  ghost function Three(e: nat): nat {
    Pow(3, e) % 65537
  }

  lemma SquareOfThree(e: nat, x: nat, y: nat)
    requires Three(e) == x && x * x % 65537 == y
    ensures Three(2 * e) == y
  {
    hide Pow;
    PowAdd(3, e, e);
    MulMod(Pow(3, e), Pow(3, e), 65537);
    MulModRight(x, Pow(3, e), 65537);
  }

  lemma ThreeItself()
    ensures Three(1) == 3
  {
  }

  lemma ThreeIsOne(e: nat)
    ensures IsOne(3, e, 65537) <==> Three(e) == 1
  {
  }

  lemma PowersOfThree()
    ensures Three(65536) == 1 && Three(32768) != 1
  {
    hide Three;
    ThreeItself();
    SquareOfThree(1, 3, 9);
    SquareOfThree(2, 9, 81);
    SquareOfThree(4, 81, 6561);
    SquareOfThree(8, 6561, 54449);
    SquareOfThree(16, 54449, 61869);
    SquareOfThree(32, 61869, 19139);
    SquareOfThree(64, 19139, 15028);
    SquareOfThree(128, 15028, 282);
    SquareOfThree(256, 282, 13987);
    SquareOfThree(512, 13987, 8224);
    SquareOfThree(1024, 8224, 65529);
    SquareOfThree(2048, 65529, 64);
    SquareOfThree(4096, 64, 4096);
    SquareOfThree(8192, 4096, 65281);
    SquareOfThree(16384, 65281, 65536);
    SquareOfThree(32768, 65536, 1);
  }

  lemma ThreeIsWitness(twos: seq<nat>)
    requires |twos| == 16 && forall f :: f in twos ==> f == 2
    ensures LucasWitness(3, 65537, twos)
  {
    hide Product, IsOne, Three, Pow2, IsPrime;
    ThreeIsOne(65536);
    ThreeIsOne(32768);
    ProductOfTwos(twos, 16);
    Pow2Values();
    TwoIsPrime();
    PowersOfThree();
  }

  /** 3 generates the residues modulo 65537, which is therefore prime. */
  lemma FermatPrime()
    ensures IsPrime(65537)
  {
    hide LucasWitness, IsOrder, IsPrime;
    var twos: seq<nat> := seq(16, i => 2);
    ThreeIsWitness(twos);
    LucasOrder(3, 65537, twos);
    GeneratedIsPrime(3, 65537);
  }

  lemma {:induction false} ProductOfTwos(fs: seq<nat>, n: nat)
    requires |fs| == n && forall f :: f in fs ==> f == 2
    decreases n
    ensures Product(fs) == Pow2(n)
  {
    if n > 0 {
      assert fs[0] in fs && forall f :: f in fs[1..] ==> f in fs;
      ProductOfTwos(fs[1..], n - 1);
    }
  }

  lemma TwoIsPrime()
    ensures IsPrime(2)
  {
  }

  lemma FactorsArePrime(q: nat)
    requires q in FACTORS
    ensures IsPrime(q)
  {
    if q == 65537 {
      FermatPrime();
    } else if q == 257 {
      forall k | 2 <= k < q
        ensures q % k != 0
      {
        NoFactorOf257(k, q / k);
      }
    }
  }

  lemma NoFactorOf257(k: nat, j: nat)
    requires 2 <= k < 257
    ensures 257 != k * j
  {
    assert k >= 17 && j >= 17 ==> k * j >= 17 * 17;
    assert j <= 1 ==> k * j <= k;
  }

  /** x^n is 1 exactly at the multiples of 2^32 - 1. */
  lemma ReturnsIff(n: nat)
    ensures Returns(n) <==> n % PERIOD == 0
  {
    hide Returns;
    PeriodReturns(PERIOD);
    var d := LeastReturn(PERIOD);
    ReturnsAtMultiples(d, PERIOD);
    NoShorter(d, PERIOD / d);
    if n % PERIOD == 0 {
      ReturnsMultiple(PERIOD, n / PERIOD, n);
    }
    if Returns(n) {
      ReturnsAtMultiples(d, n);
    }
  }

  lemma NoShorter(d: nat, k: nat)
    requires IsLeastReturn(d) && PERIOD == d * k
    ensures d == PERIOD
  {
    hide Returns;
    if k > 1 {
      assert Product(FACTORS) == PERIOD by {
        FactorsMultiply();
      }
      MultipleHasNoRemainder(d, k);
      assert d * k == k * d;
      forall f | f in FACTORS
        ensures IsPrime(f)
      {
        FactorsArePrime(f);
      }
      var q := SharesPrime(k, FACTORS);
      var j := k / q;
      assert d * (q * j) == (d * j) * q;
      ReturnsMultiple(d, j, d * j);
      NotSooner(q, d * j);
    } else {
      assert k <= 0 ==> d * k <= 0;
      assert k == 1;
    }
  }

  lemma FactorsMultiply()
    ensures Product(FACTORS) == PERIOD
  {
    assert FACTORS[1..][1..][1..][1..] == [65537];
    assert FACTORS[1..][1..][1..] == [257, 65537];
    assert FACTORS[1..][1..] == [17, 257, 65537];
    assert FACTORS[1..] == [5, 17, 257, 65537];
    assert Product([65537]) == 65537 by {
      assert [65537][1..] == [];
    }
  }

  // Two flipped bits ----------------------------------------------------------

  /** The difference of two registers moves on by itself over a common stretch. */
  lemma {:induction false} DifferenceOver(c1: nat, c2: nat, bits: seq<bool>)
    ensures Xor(Serial(c1, bits), Serial(c2, bits)) == Shifts(Xor(c1, c2), |bits|)
    decreases |bits|
  {
    hide Xor, Shift;
    if bits != [] {
      var u := Unit(bits[0]);
      Difference(c1, c2, u, u);
      XorSelf(u);
      XorZero(Xor(c1, c2));
      DifferenceOver(Shift(Xor(c1, u)), Shift(Xor(c2, u)), bits[1..]);
    }
  }

  lemma {:induction false} ShiftsApart(a: nat, b: nat, n: nat)
    requires a < Pow2(32) && b < Pow2(32) && Shifts(a, n) == Shifts(b, n)
    ensures a == b
    decreases n
  {
    hide Shift, Pow2, Xor;
    if n > 0 {
      ShiftFits(a);
      ShiftFits(b);
      ShiftsApart(Shift(a), Shift(b), n - 1);
      SameShift(a, b);
    }
  }

  lemma OneIsPower()
    ensures Power(31) == 1
  {
    hide Shifts, Value;
    EvenPowers1();
    Next(0x0000_0002, ONE, 30);
    assert ShiftWord(0x0000_0002) == 1;
    UnitValue();
  }

  lemma UnitValue()
    ensures Value(1) == 1
  {
  }

  /** A single 1 in the register comes back exactly after multiples of the period. */
  lemma UnitReturnsIff(d: nat)
    ensures Shifts(1, d) == 1 <==> d % PERIOD == 0
  {
    hide Shifts, Pow2;
    WordSize();
    OneIsPower();
    ReturnsIff(d);
    ShiftsAdd(ONE, 31, d);
    ShiftsAdd(ONE, d, 31);
    ShiftsFit(ONE, d);
    if Shifts(1, d) == 1 {
      ShiftsApart(Power(d), ONE, 31);
    }
  }

  /** Two flipped bits, with mid between them, go unnoticed exactly if their distance is a
      multiple of 2^32 - 1. */
  lemma TwoBitsUndetectedIff(before: seq<bool>, x: bool, mid: seq<bool>, y: bool, after: seq<bool>)
    ensures Checksum(before + [x] + mid + [y] + after) == Checksum(before + [!x] + mid + [!y] + after) <==>
              (|mid| + 1) % PERIOD == 0
  {
    hide Serial, Shifts, Pow2, Xor, Shift;
    WordSize();
    var c := Serial(ALL_ONES, before);
    var c1, c2 := Shift(Xor(c, Unit(x))), Shift(Xor(c, Unit(!x)));
    var r1, r2 := Serial(c1, mid), Serial(c2, mid);
    var f1, f2 := Shift(Xor(r1, Unit(y))), Shift(Xor(r2, Unit(!y)));
    SerialFits(ALL_ONES, before);
    RegisterFits(c, x);
    RegisterFits(c, !x);
    SerialFits(c1, mid);
    SerialFits(c2, mid);
    RegisterFits(r1, y);
    RegisterFits(r2, !y);
    Stages(before, x, mid, y, after);
    Stages(before, !x, mid, !y, after);
    FirstDifference(c, x, !x);
    DifferenceOver(c1, c2, mid);
    UnitToGenerator(|mid|);
    UnitReturnsIff(|mid| + 1);
    Meet(r1, r2, y);
    if Serial(f1, after) == Serial(f2, after) {
      RegistersApart(f1, f2, after);
    }
  }

  lemma UnitToGenerator(n: nat)
    ensures Shifts(1, n + 1) == Shifts(POLYNOMIAL, n)
  {
    assert Shift(1) == POLYNOMIAL by {
      ZeroXor(POLYNOMIAL);
    }
    hide Shift;
  }

  lemma Stages(before: seq<bool>, x: bool, mid: seq<bool>, y: bool, after: seq<bool>)
    ensures Serial(ALL_ONES, before + [x] + mid + [y] + after) ==
              Serial(Shift(Xor(Serial(Shift(Xor(Serial(ALL_ONES, before), Unit(x))), mid), Unit(y))), after)
  {
    hide Shift, Xor, Serial;
    SerialAppend(ALL_ONES, before, [x]);
    SerialAppend(ALL_ONES, before + [x], mid);
    SerialAppend(ALL_ONES, before + [x] + mid, [y]);
    SerialAppend(ALL_ONES, before + [x] + mid + [y], after);
    SerialOne(Serial(ALL_ONES, before), x);
    SerialOne(Serial(ALL_ONES, before + [x] + mid), y);
  }

  lemma SerialOne(c: nat, x: bool)
    ensures Serial(c, [x]) == Shift(Xor(c, Unit(x)))
  {
    hide Shift, Xor;
    assert [x][1..] == [];
  }

  /** The second flip makes up for the first exactly if it meets a difference of 1. */
  lemma Meet(r1: nat, r2: nat, y: bool)
    requires r1 < Pow2(32) && r2 < Pow2(32)
    ensures Shift(Xor(r1, Unit(y))) == Shift(Xor(r2, Unit(!y))) <==> Xor(r1, r2) == 1
  {
    hide Xor, Shift, Pow2, Unit;
    var a, b := Xor(r1, Unit(y)), Xor(r2, Unit(!y));
    RegisterFits(r1, y);
    RegisterFits(r2, !y);
    SameShift(a, b);
    XorExchange(r1, Unit(y), r2, Unit(!y));
    UnitsDiffer(y);
    EqualIff(a, b);
    EqualIff(Xor(r1, r2), 1);
  }

  lemma EqualIff(a: nat, b: nat)
    ensures Xor(a, b) == 0 <==> a == b
  {
    hide Xor;
    XorSelf(a);
    if Xor(a, b) == 0 {
      XorEqual(a, b);
    }
  }

  lemma UnitsDiffer(y: bool)
    ensures Xor(Unit(y), Unit(!y)) == 1
  {
    assert Xor(0, 1) == 1 == Xor(1, 0);
  }

  lemma SameShift(a: nat, b: nat)
    requires a < Pow2(32) && b < Pow2(32)
    ensures Shift(a) == Shift(b) <==> a == b
  {
    hide Xor, Shift, Pow2;
    if Shift(a) == Shift(b) {
      ShiftLinear(a, b);
      XorSelf(Shift(a));
      ShiftToNothing(a, b);
    }
  }

  /** So two flipped bits closer than 2^32 - 1 are always noticed. */
  lemma TwoBitsDetected(before: seq<bool>, x: bool, mid: seq<bool>, y: bool, after: seq<bool>)
    requires |mid| + 1 < PERIOD
    ensures Checksum(before + [x] + mid + [y] + after) != Checksum(before + [!x] + mid + [!y] + after)
  {
    hide Checksum;
    TwoBitsUndetectedIff(before, x, mid, y, after);
  }
}
