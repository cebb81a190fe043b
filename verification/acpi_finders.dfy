// ACPICA's bit finders, written as nested binary searches, and the rounding to
// powers of two built on them.

module AcpiFinders {
  import opened Division
  import opened Bits

  // The macros ----------------------------------------------------------------

  function LastBit2(a: nat, r: nat): nat {
    if And(a % 0x100, 0x02) != 0 then r + 1 else r
  }

  function LastBit4(a: nat, r: nat): nat {
    if And(a % 0x100, 0x0C) != 0 then LastBit2(Shr(a, 2), r + 2) else LastBit2(a, r)
  }

  function LastBit8(a: nat, r: nat): nat {
    if And(a % 0x100, 0xF0) != 0 then LastBit4(Shr(a, 4), r + 4) else LastBit4(a, r)
  }

  function LastBit16(a: nat, r: nat): nat {
    if And(a % 0x1_0000, 0xFF00) != 0 then LastBit8(Shr(a, 8), r + 8) else LastBit8(a, r)
  }

  function LastBit32(a: nat, r: nat): nat {
    if And(a % 0x1_0000_0000, 0xFFFF_0000) != 0 then LastBit16(Shr(a, 16), r + 16) else LastBit16(a, r)
  }

  function LastBit64(a: nat, r: nat): nat {
    if And(a % 0x1_0000_0000_0000_0000, 0xFFFF_FFFF_0000_0000) != 0
    then LastBit32(Shr(a, 32), r + 32) else LastBit32(a, r)
  }

  function FindLastBit32(a: nat): nat {
    if a != 0 then LastBit32(a, 1) else 0
  }

  function FindLastBit64(a: nat): nat {
    if a != 0 then LastBit64(a, 1) else 0
  }

  function FirstBit2(a: nat, r: nat): nat {
    if And(a % 0x100, 0x01) != 0 then r else r + 1
  }

  function FirstBit4(a: nat, r: nat): nat {
    if And(a % 0x100, 0x03) != 0 then FirstBit2(a, r) else FirstBit2(Shr(a, 2), r + 2)
  }

  function FirstBit8(a: nat, r: nat): nat {
    if And(a % 0x100, 0x0F) != 0 then FirstBit4(a, r) else FirstBit4(Shr(a, 4), r + 4)
  }

  function FirstBit16(a: nat, r: nat): nat {
    if And(a % 0x1_0000, 0x00FF) != 0 then FirstBit8(a, r) else FirstBit8(Shr(a, 8), r + 8)
  }

  function FirstBit32(a: nat, r: nat): nat {
    if And(a % 0x1_0000_0000, 0x0000_FFFF) != 0 then FirstBit16(a, r) else FirstBit16(Shr(a, 16), r + 16)
  }

  function FirstBit64(a: nat, r: nat): nat {
    if And(a % 0x1_0000_0000_0000_0000, 0xFFFF_FFFF) != 0
    then FirstBit32(a, r) else FirstBit32(Shr(a, 32), r + 32)
  }

  function FindFirstBit64(a: nat): nat {
    if a != 0 then FirstBit64(a, 1) else 0
  }

  // The naive scans -----------------------------------------------------------

  /** Position of the highest set bit. */
  function Log2(a: nat): nat
    requires a > 0
  {
    if a == 1 then 0 else 1 + Log2(a / 2)
  }

  /** Position of the lowest set bit. */
  function TrailingZeros(a: nat): nat
    requires a > 0
  {
    if a % 2 == 1 then 0 else 1 + TrailingZeros(a / 2)
  }

  lemma {:induction false} Log2Bounds(a: nat)
    requires a > 0
    ensures Pow2(Log2(a)) <= a < Pow2(Log2(a) + 1)
    ensures Bit(a, Log2(a)) && forall i: nat :: i > Log2(a) ==> !Bit(a, i)
  {
    if a > 1 {
      Log2Bounds(a / 2);
      forall i: nat | i > Log2(a)
        ensures !Bit(a, i)
      {
        assert !Bit(a / 2, i - 1);
      }
    } else {
      forall i: nat | i > 0
        ensures !Bit(1, i)
      {
        HighBitsClear(1, 1, i);
      }
    }
  }

  lemma {:induction false} TrailingZerosMeaning(a: nat)
    requires a > 0
    ensures a % Pow2(TrailingZeros(a)) == 0 && a % Pow2(TrailingZeros(a) + 1) != 0
    ensures Bit(a, TrailingZeros(a)) && forall i: nat :: i < TrailingZeros(a) ==> !Bit(a, i)
  {
    if a % 2 == 0 {
      var z := TrailingZeros(a / 2);
      TrailingZerosMeaning(a / 2);
      HalveThenDivide(a, Pow2(z));
      HalveThenDivide(a, Pow2(z + 1));
      forall i: nat | i < TrailingZeros(a)
        ensures !Bit(a, i)
      {
        assert i > 0 ==> !Bit(a / 2, i - 1);
      }
    }
  }

  lemma {:induction false} Log2Shift(a: nat, k: nat)
    requires a >= Pow2(k)
    ensures Shr(a, k) > 0 && Log2(a) == k + Log2(Shr(a, k))
  {
    if k > 0 {
      Log2Shift(a / 2, k - 1);
    }
  }

  lemma {:induction false} TrailingZerosShift(a: nat, k: nat)
    requires a > 0 && a % Pow2(k) == 0
    ensures Shr(a, k) > 0 && TrailingZeros(a) == k + TrailingZeros(Shr(a, k))
  {
    if k > 0 {
      HalveThenDivide(a, Pow2(k - 1));
      TrailingZerosShift(a / 2, k - 1);
    }
  }

  // One level of each search --------------------------------------------------

  /** Masking with the upper of two k-bit halves keeps that half. */
  lemma UpperHalf(a: nat, k: nat, p: nat)
    requires p == Pow2(k) && a < p * p
    ensures And(a, (p - 1) * p) == a / p * p
    ensures Shr(a, k) == a / p < p
  {
    ShlIsProduct(Mask(k), k);
    hide And, Shl, Shr, Pow2;
    AndShifted(a, Mask(k), k);
    ShrIsQuotient(a, k);
    AndMask(Shr(a, k), k);
    ShlIsProduct(And(Shr(a, k), Mask(k)), k);
    QuotientBelow(a, p);
    RemainderUnique(a / p, 0, a / p, p);
  }

  lemma QuotientBelow(a: nat, p: nat)
    requires p > 0 && a < p * p
    ensures a / p < p
  {
    var q := a / p;
    assert q >= p ==> p * q >= p * p;
  }

  lemma QuotientPositive(a: nat, p: nat)
    requires p > 0
    ensures a / p * p != 0 <==> a >= p
  {
    var q := a / p;
    assert q >= 1 ==> q * p >= p;
    assert q <= 0 ==> q * p <= 0;
  }

  /** Reducing modulo a larger power of two first does not change a remainder. */
  lemma {:induction false} RemainderOfRemainder(a: nat, k: nat, w: nat)
    requires k <= w
    ensures (a % Pow2(w)) % Pow2(k) == a % Pow2(k)
  {
    if k > 0 {
      var x := a % Pow2(w);
      HalveThenDivide(a, Pow2(w - 1));
      HalveThenDivide(a, Pow2(k - 1));
      HalveThenDivide(x, Pow2(k - 1));
      RemainderOfRemainder(a / 2, k - 1, w - 1);
    }
  }

  /** What a level of the last-bit search may conclude from its test, for
      k-bit halves, p = 2^k and an operand cast to a type of m values. */
  lemma LastBitLevel(a: nat, k: nat, p: nat, m: nat, mask: nat)
    requires p == Pow2(k) && 0 < a < p * p && a < m && mask == (p - 1) * p
    ensures And(a % m, mask) != 0 <==> a >= p
    ensures a >= p ==> 0 < Shr(a, k) < p && Log2(a) == k + Log2(Shr(a, k))
  {
    RemainderUnique(a, 0, a, m);
    UpperHalf(a, k, p);
    QuotientPositive(a, p);
    if a >= p {
      Log2Shift(a, k);
    }
  }

  /** What a level of the first-bit search may conclude from its test. */
  lemma FirstBitLevel(a: nat, k: nat, p: nat, w: nat, m: nat, t: nat)
    requires p == Pow2(k) && m == Pow2(w) && t == Pow2(2 * k) && 2 * k <= w && a % t != 0
    ensures And(a % m, p - 1) != 0 <==> a % p != 0
    ensures a % p == 0 ==>
              && Shr(a, k) % p != 0
              && Shr(a, k) > 0
              && a > 0
              && TrailingZeros(a) == k + TrailingZeros(Shr(a, k))
  {
    hide And, Shr, Pow2;
    AndMask(a % m, k);
    RemainderOfRemainder(a, k, w);
    if a % p == 0 {
      TrailingZerosShift(a, k);
      ShrRemainder(a, k, k);
    }
  }

  lemma {:induction false} ShrRemainder(a: nat, k: nat, j: nat)
    requires a % Pow2(k + j) != 0 && a % Pow2(k) == 0
    ensures Shr(a, k) % Pow2(j) != 0
  {
    if k > 0 {
      HalveThenDivide(a, Pow2(k - 1));
      HalveThenDivide(a, Pow2(k + j - 1));
      ShrRemainder(a / 2, k - 1, j);
    }
  }

  // The searches against the scans --------------------------------------------

  lemma LastBit4Correct(a: nat, r: nat)
    requires 0 < a < 0x10
    ensures LastBit4(a, r) == r + Log2(a)
  {
    Pow2Values();
    LastBitLevel(a, 2, 4, 0x100, 0x0C);
    LastBitLevel(if a >= 4 then Shr(a, 2) else a, 1, 2, 0x100, 0x02);
  }

  lemma LastBit8Correct(a: nat, r: nat)
    requires 0 < a < 0x100
    ensures LastBit8(a, r) == r + Log2(a)
  {
    Pow2Values();
    hide And, Shr, Pow2, Log2, LastBit4;
    LastBitLevel(a, 4, 0x10, 0x100, 0xF0);
    if a >= 0x10 {
      LastBit4Correct(Shr(a, 4), r + 4);
    } else {
      LastBit4Correct(a, r);
    }
  }

  lemma LastBit16Correct(a: nat, r: nat)
    requires 0 < a < 0x1_0000
    ensures LastBit16(a, r) == r + Log2(a)
  {
    Pow2Values();
    hide And, Shr, Pow2, Log2, LastBit8;
    LastBitLevel(a, 8, 0x100, 0x1_0000, 0xFF00);
    if a >= 0x100 {
      LastBit8Correct(Shr(a, 8), r + 8);
    } else {
      LastBit8Correct(a, r);
    }
  }

  lemma LastBit32Correct(a: nat, r: nat)
    requires 0 < a < 0x1_0000_0000
    ensures LastBit32(a, r) == r + Log2(a)
  {
    Pow2Values();
    hide And, Shr, Pow2, Log2, LastBit16;
    LastBitLevel(a, 16, 0x1_0000, 0x1_0000_0000, 0xFFFF_0000);
    if a >= 0x1_0000 {
      LastBit16Correct(Shr(a, 16), r + 16);
    } else {
      LastBit16Correct(a, r);
    }
  }

  lemma FirstBit4Correct(a: nat, r: nat)
    requires a % 0x10 != 0
    ensures FirstBit4(a, r) == r + TrailingZeros(a)
  {
    Pow2Values();
    FirstBitLevel(a, 2, 4, 8, 0x100, 0x10);
    FirstBitLevel(if a % 4 != 0 then a else Shr(a, 2), 1, 2, 8, 0x100, 4);
  }

  lemma FirstBit8Correct(a: nat, r: nat)
    requires a % 0x100 != 0
    ensures FirstBit8(a, r) == r + TrailingZeros(a)
  {
    Pow2Values();
    hide And, Shr, Pow2, TrailingZeros, FirstBit4;
    FirstBitLevel(a, 4, 0x10, 8, 0x100, 0x100);
    if a % 0x10 != 0 {
      FirstBit4Correct(a, r);
    } else {
      FirstBit4Correct(Shr(a, 4), r + 4);
    }
  }

  lemma FirstBit16Correct(a: nat, r: nat)
    requires a % 0x1_0000 != 0
    ensures FirstBit16(a, r) == r + TrailingZeros(a)
  {
    Pow2Values();
    hide And, Shr, Pow2, TrailingZeros, FirstBit8;
    FirstBitLevel(a, 8, 0x100, 16, 0x1_0000, 0x1_0000);
    if a % 0x100 != 0 {
      FirstBit8Correct(a, r);
    } else {
      FirstBit8Correct(Shr(a, 8), r + 8);
    }
  }

  lemma FirstBit32Correct(a: nat, r: nat)
    requires a % 0x1_0000_0000 != 0
    ensures FirstBit32(a, r) == r + TrailingZeros(a)
  {
    Pow2Values();
    hide And, Shr, Pow2, TrailingZeros, FirstBit16;
    FirstBitLevel(a, 16, 0x1_0000, 32, 0x1_0000_0000, 0x1_0000_0000);
    if a % 0x1_0000 != 0 {
      FirstBit16Correct(a, r);
    } else {
      FirstBit16Correct(Shr(a, 16), r + 16);
    }
  }

  /** The last-bit search finds floor(log2 a) + 1, or 0 for 0. */
  lemma FindLastBit64Correct(a: nat)
    requires a < 0x1_0000_0000_0000_0000
    ensures FindLastBit64(a) == 0 <==> a == 0
    ensures a > 0 ==> FindLastBit64(a) == Log2(a) + 1
  {
    if a > 0 {
      Pow2Values();
      hide And, Shr, Pow2, Log2, LastBit32;
      LastBitLevel(a, 32, 0x1_0000_0000, 0x1_0000_0000_0000_0000, 0xFFFF_FFFF_0000_0000);
      if a >= 0x1_0000_0000 {
        LastBit32Correct(Shr(a, 32), 33);
      } else {
        LastBit32Correct(a, 1);
      }
    }
  }

  lemma FirstBit64Correct(a: nat, r: nat)
    requires a % 0x1_0000_0000_0000_0000 != 0
    ensures FirstBit64(a, r) == r + TrailingZeros(a)
  {
    Pow2Values();
    hide And, Shr, Pow2, TrailingZeros, FirstBit32;
    FirstBitLevel(a, 32, 0x1_0000_0000, 64, 0x1_0000_0000_0000_0000, 0x1_0000_0000_0000_0000);
    if a % 0x1_0000_0000 != 0 {
      FirstBit32Correct(a, r);
    } else {
      FirstBit32Correct(Shr(a, 32), r + 32);
    }
  }

  /** The first-bit search finds one more than the exponent of the largest power
      of two dividing a, or 0 for 0. */
  lemma FindFirstBit64Correct(a: nat)
    requires a < 0x1_0000_0000_0000_0000
    ensures FindFirstBit64(a) == 0 <==> a == 0
    ensures a > 0 ==> FindFirstBit64(a) == TrailingZeros(a) + 1
  {
    if a > 0 {
      hide FirstBit64, TrailingZeros;
      RemainderUnique(a, 0, a, 0x1_0000_0000_0000_0000);
      FirstBit64Correct(a, 1);
    }
  }

  // Rounding to powers of two -------------------------------------------------

  /** Subtracting one from a 32-bit operand. */
  function Pred32(a: nat): nat {
    if a == 0 then 0xFFFF_FFFF else a - 1
  }

  function RoundUpPowerOfTwo32(a: nat): nat {
    Shl(1, FindLastBit32(Pred32(a))) % 0x1_0000_0000
  }

  function RoundDownPowerOfTwo32(a: nat): nat
    requires 0 < a < 0x1_0000_0000
  {
    FindLastBit32Correct(a);
    Shl(1, FindLastBit32(a) - 1) % 0x1_0000_0000
  }

  predicate IsPowerOfTwo32(a: nat) {
    And(a, Pred32(a)) == 0
  }

  lemma FindLastBit32Correct(a: nat)
    requires a < 0x1_0000_0000
    ensures FindLastBit32(a) == if a == 0 then 0 else Log2(a) + 1
  {
    if a > 0 {
      LastBit32Correct(a, 1);
    }
  }

  /** Rounding up, before the cast to 32 bits: the least power of two >= a. */
  lemma LeastPowerAbove(a: nat, k: nat)
    requires 0 < a <= 0x1_0000_0000
    ensures var n := FindLastBit32(a - 1);
            && a <= Pow2(n) < 2 * a
            && (Pow2(k) >= a ==> Pow2(n) <= Pow2(k))
  {
    assert Pow2(0) == 1 && (a > 1 ==> Pow2(Log2(a - 1) + 1) == 2 * Pow2(Log2(a - 1)));
    hide Log2, Pow2, FindLastBit32;
    FindLastBit32Correct(a - 1);
    if a > 1 {
      var n := Log2(a - 1) + 1;
      Log2Bounds(a - 1);
      if k < n {
        Pow2Monotone(k, n - 1);
      } else {
        Pow2Monotone(n, k);
      }
    }
  }

  lemma RoundUpValue(a: nat)
    ensures RoundUpPowerOfTwo32(a) == Pow2(FindLastBit32(Pred32(a))) % 0x1_0000_0000
  {
    hide FindLastBit32, Shl, Pow2;
    ShlIsProduct(1, FindLastBit32(Pred32(a)));
  }

  lemma RoundUpIsLeast(a: nat, k: nat)
    requires 1 <= a <= 0x8000_0000
    ensures RoundUpPowerOfTwo32(a) == Pow2(FindLastBit32(a - 1)) >= a
    ensures RoundUpPowerOfTwo32(a) < 2 * a
    ensures Pow2(k) >= a ==> RoundUpPowerOfTwo32(a) <= Pow2(k)
  {
    hide FindLastBit32, RoundUpPowerOfTwo32, Pow2;
    var p := Pow2(FindLastBit32(a - 1));
    RoundUpValue(a);
    LeastPowerAbove(a, k);
    LeastPowerAbove(a, 31);
    Pow2Values();
    RemainderUnique(p, 0, p, 0x1_0000_0000);
  }

  lemma RoundUpOverflows(a: nat)
    requires a == 0 || 0x8000_0000 < a < 0x1_0000_0000
    ensures RoundUpPowerOfTwo32(a) == 0
  {
    hide FindLastBit32, RoundUpPowerOfTwo32, Pow2;
    var b := Pred32(a) + 1;
    RoundUpValue(a);
    LeastPowerAbove(b, 32);
    Pow2Values();
    NoPowerBetween(FindLastBit32(b - 1));
    RemainderUnique(0x1_0000_0000, 1, 0, 0x1_0000_0000);
  }

  /** Rounding up yields the least power of two >= a exactly for 1 <= a <= 2^31;
      outside, the cast to 32 bits leaves 0. */
  lemma RoundUpCorrectIff(a: nat)
    requires a < 0x1_0000_0000
    ensures IsLeastPowerAbove(RoundUpPowerOfTwo32(a), a) <==> 1 <= a <= 0x8000_0000
  {
    if 1 <= a <= 0x8000_0000 {
      forall k: nat | Pow2(k) >= a
        ensures RoundUpPowerOfTwo32(a) <= Pow2(k)
      {
        RoundUpIsLeast(a, k);
      }
      RoundUpIsLeast(a, 0);
    } else {
      RoundUpOverflows(a);
    }
  }

  ghost predicate IsLeastPowerAbove(p: nat, a: nat) {
    (exists k :: p == Pow2(k)) && p >= a && forall k :: Pow2(k) >= a ==> p <= Pow2(k)
  }

  lemma NoPowerBetween(n: nat)
    requires 0x8000_0000 < Pow2(n)
    ensures 0x1_0000_0000 <= Pow2(n)
  {
    Pow2Values();
    if n <= 31 {
      Pow2Monotone(n, 31);
    } else {
      Pow2Monotone(32, n);
    }
  }

  /** Rounding down yields the greatest power of two <= a. */
  lemma RoundDownIsGreatest(a: nat, k: nat)
    requires 0 < a < 0x1_0000_0000
    ensures RoundDownPowerOfTwo32(a) == Pow2(Log2(a)) <= a
    ensures Pow2(k) <= a ==> Pow2(k) <= RoundDownPowerOfTwo32(a)
  {
    FindLastBit32Correct(a);
    var n := Log2(a);
    Log2Bounds(a);
    ShlIsProduct(1, n);
    RemainderUnique(Pow2(n), 0, Pow2(n), 0x1_0000_0000);
    if k > n {
      Pow2Monotone(n + 1, k);
    } else {
      Pow2Monotone(k, n);
    }
  }

  lemma {:induction false} AndSelf(x: nat)
    ensures And(x, x) == x
  {
    if x > 0 {
      AndSelf(x / 2);
    }
  }

  /** a & (a - 1) clears the lowest set bit. */
  lemma {:induction false} PowerOfTwoTest(a: nat)
    requires a > 0
    ensures And(a, a - 1) == 0 <==> a == Pow2(Log2(a))
  {
    if a % 2 == 0 {
      PowerOfTwoTest(a / 2);
      assert (a - 1) / 2 == a / 2 - 1;
    } else if a > 1 {
      AndSelf(a / 2);
      assert (a - 1) / 2 == a / 2;
    }
  }

  /** On 1..2^31 the two roundings coincide exactly on the powers of two the test
      accepts, and otherwise are a factor of two apart. */
  lemma RoundingsBracket(a: nat)
    requires 1 <= a <= 0x8000_0000
    ensures IsPowerOfTwo32(a) <==> RoundUpPowerOfTwo32(a) == RoundDownPowerOfTwo32(a)
    ensures IsPowerOfTwo32(a) <==> exists k :: a == Pow2(k)
    ensures !IsPowerOfTwo32(a) ==> RoundUpPowerOfTwo32(a) == 2 * RoundDownPowerOfTwo32(a)
  {
    hide Log2, And, FindLastBit32, RoundUpPowerOfTwo32, RoundDownPowerOfTwo32;
    var n := Log2(a);
    PowerOfTwoTest(a);
    Log2Bounds(a);
    RoundUpIsLeast(a, n);
    RoundUpIsLeast(a, n + 1);
    RoundDownIsGreatest(a, n);
    if k :| a == Pow2(k) {
      RoundDownIsGreatest(a, k);
    }
    if a != Pow2(n) {
      PowerWithin(FindLastBit32(a - 1), n);
    }
  }

  lemma PowerWithin(m: nat, n: nat)
    requires Pow2(n) < Pow2(m) <= Pow2(n + 1)
    ensures Pow2(m) == 2 * Pow2(n)
  {
    if m <= n {
      Pow2Monotone(m, n);
    } else {
      Pow2Monotone(n + 1, m);
    }
  }

  /** For every word the test tells the powers of two and 0, which is none, from the rest. */
  lemma PowerOfTwoTestIff(a: nat)
    requires a < 0x1_0000_0000
    ensures IsPowerOfTwo32(a) <==> a == 0 || exists k :: a == Pow2(k)
    ensures forall k :: Pow2(k) != 0
  {
    if a > 0 {
      hide Log2, And, Pow2;
      PowerOfTwoTest(a);
      Log2Bounds(a);
      if k :| a == Pow2(k) {
        PowerIsItsLog(a, k);
      }
    }
  }

  lemma PowerIsItsLog(a: nat, k: nat)
    requires a > 0 && a == Pow2(k)
    ensures a == Pow2(Log2(a))
  {
    hide Log2, Pow2;
    Log2Bounds(a);
    if k <= Log2(a) {
      Pow2Monotone(k, Log2(a));
    } else {
      Pow2Monotone(Log2(a) + 1, k);
    }
  }
}
