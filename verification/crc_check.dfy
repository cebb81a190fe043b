// What fixes the checksum of the kernel shell among all CRCs with its generator: the register
// it starts from, the final complement and the order of the bits.

module CrcCheck {
  import opened Bits
  import opened Crc32
  import opened CrcPeriod

  /** The empty file. */
  lemma NothingToCheck()
    ensures Checksum([]) == 0
  {
  }

  // The residue ---------------------------------------------------------------

  lemma {:induction false} XorComplement(x: nat, n: nat)
    requires x < Pow2(n)
    ensures Xor(x, Mask(n) - x) == Mask(n)
    decreases n
  {
    hide Xor;
    MaskStep(n);
    MaskBelow(n);
    if n == 0 {
      XorZero(0);
    } else {
      XorHalves(x, Mask(n) - x);
      XorComplement(x / 2, n - 1);
    }
  }

  lemma {:induction false} MaskBelow(n: nat)
    ensures Mask(n) == Pow2(n) - 1
  {
    if n > 0 {
      MaskBelow(n - 1);
    }
  }

  lemma FourShifts(w: bv32)
    ensures Shifts(Value(w), 32) == Value(Eight(Eight(Eight(Eight(w)))))
  {
    hide Value, Shifts, Eight;
    var a, b, c := Eight(w), Eight(Eight(w)), Eight(Eight(Eight(w)));
    ValueEight(w);
    ValueEight(a);
    ValueEight(b);
    ValueEight(c);
    ShiftsAdd(Value(w), 8, 8);
    ShiftsAdd(Value(w), 16, 8);
    ShiftsAdd(Value(w), 24, 8);
  }

  lemma AllOnesShifted()
    ensures Shifts(ALL_ONES, 32) == 0xDEBB_20E3
  {
    assert Eight(0xFFFF_FFFF) == 0x2DFD_1072;
    assert Eight(0x2DFD_1072) == 0xBE26_ED00;
    assert Eight(0xBE26_ED00) == 0xBE_26ED;
    assert Eight(0xBE_26ED) == 0xDEBB_20E3;
    hide Value, Shifts, Eight;
    ValueOfAllOnes();
    ValueOfResidue();
    FourShifts(0xFFFF_FFFF);
  }

  /** A message followed by its own checksum always has the same checksum. */
  lemma Residue(bits: seq<bool>)
    ensures 0 <= Checksum(bits) && Checksum(bits + LowBits(Checksum(bits), 32)) == 0x2144_DF1C
  {
    hide Serial, Shifts, LowBits, Xor, Mask, Pow2;
    var c := Serial(ALL_ONES, bits);
    SerialFits(ALL_ONES, bits);
    WordSize();
    MaskBelow(32);
    SerialAppend(ALL_ONES, bits, LowBits(ALL_ONES - c, 32));
    FeedAtOnce(c, ALL_ONES - c, 32);
    XorComplement(c, 32);
    AllOnesShifted();
  }

  // The check value -----------------------------------------------------------

  /** One more byte of a file, on 32-bit vectors. */
  lemma Step(data: seq<Byte>, w: bv32, b: bv32, next: bv32, v: Byte)
    requires Serial(ALL_ONES, MessageBits(data)) == Value(w) && Value(b) == v && Eight(Plus(w, b)) == next
    ensures Serial(ALL_ONES, MessageBits(data + [v])) == Value(next)
  {
    hide Serial, MessageBits, LowBits, Value, Eight, Plus, Shifts, Xor, Pow2;
    MessageAppend(data, v);
    SerialAppend(ALL_ONES, MessageBits(data), LowBits(v, 8));
    ByteMask();
    FeedAtOnce(Value(w), v, 8);
    ValuePlus(w, b);
    ValueEight(Plus(w, b));
  }

  /** The first k bytes of "123456789". */
  function Digits(k: nat): seq<Byte>
    requires k <= 9
  {
    if k == 0 then [] else Digits(k - 1) + [0x30 + k]
  }

  lemma AllDigits()
    ensures Digits(9) == [0x31, 0x32, 0x33, 0x34, 0x35, 0x36, 0x37, 0x38, 0x39]
  {
    assert Digits(3) == [0x31, 0x32, 0x33];
    assert Digits(6) == [0x31, 0x32, 0x33, 0x34, 0x35, 0x36];
  }

  /** The register after each of them. */
  lemma Registers()
    ensures Eight(Plus(0xFFFF_FFFF, 0x31)) == 0x7C23_1048
    ensures Eight(Plus(0x7C23_1048, 0x32)) == 0xB0AC_BB32
    ensures Eight(Plus(0xB0AC_BB32, 0x33)) == 0x77B7_9C2D
    ensures Eight(Plus(0x77B7_9C2D, 0x34)) == 0x641C_1F5C
    ensures Eight(Plus(0x641C_1F5C, 0x35)) == 0x340A_C5E3
    ensures Eight(Plus(0x340A_C5E3, 0x36)) == 0xF68D_2C9E
    ensures Eight(Plus(0xF68D_2C9E, 0x37)) == 0xAFFC_9660
    ensures Eight(Plus(0xAFFC_9660, 0x38)) == 0x651F_2550
    ensures Eight(Plus(0x651F_2550, 0x39)) == 0x340B_C6D9
  {
  }

  lemma DigitStep(k: nat, w: bv32, b: bv32, next: bv32)
    requires k < 9 && Serial(ALL_ONES, MessageBits(Digits(k))) == Value(w)
    requires Value(b) == 0x31 + k && Eight(Plus(w, b)) == next
    ensures Serial(ALL_ONES, MessageBits(Digits(k + 1))) == Value(next)
  {
    hide Serial, MessageBits, Value, Eight, Plus;
    Step(Digits(k), w, b, next, 0x31 + k);
  }

  /** The nine bytes "123456789", which implementations of the checksum are compared on. */
  lemma CheckValue()
    ensures Checksum(MessageBits([0x31, 0x32, 0x33, 0x34, 0x35, 0x36, 0x37, 0x38, 0x39])) == 0xCBF4_3926
  {
    assert Digits(0) == [];
    hide Serial, MessageBits, Value, Eight, Plus, Digits;
    NoMessage(ALL_ONES);
    ValueOfAllOnes();
    ValuesOfDigits();
    ValueOfCheck();
    Registers();
    DigitStep(0, 0xFFFF_FFFF, 0x31, 0x7C23_1048);
    DigitStep(1, 0x7C23_1048, 0x32, 0xB0AC_BB32);
    DigitStep(2, 0xB0AC_BB32, 0x33, 0x77B7_9C2D);
    DigitStep(3, 0x77B7_9C2D, 0x34, 0x641C_1F5C);
    DigitStep(4, 0x641C_1F5C, 0x35, 0x340A_C5E3);
    DigitStep(5, 0x340A_C5E3, 0x36, 0xF68D_2C9E);
    DigitStep(6, 0xF68D_2C9E, 0x37, 0xAFFC_9660);
    DigitStep(7, 0xAFFC_9660, 0x38, 0x651F_2550);
    DigitStep(8, 0x651F_2550, 0x39, 0x340B_C6D9);
    AllDigits();
  }

  // Values of words -----------------------------------------------------------

  function LowFour(w: bv32): nat {
    (if w & 8 != 0 then 8 else 0) + (if w & 4 != 0 then 4 else 0) + (if w & 2 != 0 then 2 else 0)
    + (if w & 1 != 0 then 1 else 0)
  }

  /** The value by hexadecimal digits. */
  lemma FourBits(w: bv32, high: bv32, digit: nat)
    requires w >> 4 == high && LowFour(w) == digit
    ensures Value(w) == 16 * Value(high) + digit
  {
    var a, b, c := Half(w), Half(Half(w)), Half(Half(Half(w)));
    assert Half(c) == high && (Odd(a) <==> w & 2 != 0) && (Odd(b) <==> w & 4 != 0) && (Odd(c) <==> w & 8 != 0);
    hide Value, Half;
    ValueHalves(w);
    ValueHalves(a);
    ValueHalves(b);
    ValueHalves(c);
  }

  lemma ValueOfAllOnes()
    ensures Value(0xFFFF_FFFF) == 0xFFFF_FFFF
  {
    hide Value;
    ValueZero(0);
    FourBits(0xF, 0x0, 15);
    FourBits(0xFF, 0xF, 15);
    FourBits(0xFFF, 0xFF, 15);
    FourBits(0xFFFF, 0xFFF, 15);
    FourBits(0xF_FFFF, 0xFFFF, 15);
    FourBits(0xFF_FFFF, 0xF_FFFF, 15);
    FourBits(0xFFF_FFFF, 0xFF_FFFF, 15);
    FourBits(0xFFFF_FFFF, 0xFFF_FFFF, 15);
  }

  lemma ValueOfResidue()
    ensures Value(0xDEBB_20E3) == 0xDEBB_20E3
  {
    hide Value;
    ValueZero(0);
    FourBits(0xD, 0x0, 13);
    FourBits(0xDE, 0xD, 14);
    FourBits(0xDEB, 0xDE, 11);
    FourBits(0xDEBB, 0xDEB, 11);
    FourBits(0xD_EBB2, 0xDEBB, 2);
    FourBits(0xDE_BB20, 0xD_EBB2, 0);
    FourBits(0xDEB_B20E, 0xDE_BB20, 14);
    FourBits(0xDEBB_20E3, 0xDEB_B20E, 3);
  }

  lemma ValueOfCheck()
    ensures Value(0x340B_C6D9) == 0x340B_C6D9
  {
    hide Value;
    ValueZero(0);
    FourBits(0x3, 0x0, 3);
    FourBits(0x34, 0x3, 4);
    FourBits(0x340, 0x34, 0);
    FourBits(0x340B, 0x340, 11);
    FourBits(0x3_40BC, 0x340B, 12);
    FourBits(0x34_0BC6, 0x3_40BC, 6);
    FourBits(0x340_BC6D, 0x34_0BC6, 13);
    FourBits(0x340B_C6D9, 0x340_BC6D, 9);
  }

  lemma ValuesOfDigits()
    ensures Value(0x31) == 0x31 && Value(0x32) == 0x32 && Value(0x33) == 0x33
    ensures Value(0x34) == 0x34 && Value(0x35) == 0x35 && Value(0x36) == 0x36
    ensures Value(0x37) == 0x37 && Value(0x38) == 0x38 && Value(0x39) == 0x39
  {
    hide Value;
    ValueZero(0);
    FourBits(0x3, 0, 3);
    FourBits(0x31, 0x3, 1);
    FourBits(0x32, 0x3, 2);
    FourBits(0x33, 0x3, 3);
    FourBits(0x34, 0x3, 4);
    FourBits(0x35, 0x3, 5);
    FourBits(0x36, 0x3, 6);
    FourBits(0x37, 0x3, 7);
    FourBits(0x38, 0x3, 8);
    FourBits(0x39, 0x3, 9);
  }
}
