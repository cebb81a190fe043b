// Rounding a binary32 number up by editing its sign, exponent and mantissa bits.

module Ceil {
  import opened Division
  import opened Bits

  // Binary32 ------------------------------------------------------------------

  function SignBit(bits: nat): nat {
    bits / 0x8000_0000
  }

  function ExponentField(bits: nat): nat {
    (bits % 0x8000_0000) / 0x80_0000
  }

  function MantissaField(bits: nat): nat {
    bits % 0x80_0000
  }

  /** sig * 2^(e - 150). */
  function Scale(sig: nat, e: nat): real {
    if e >= 150 then (sig * Pow2(e - 150)) as real else sig as real / Pow2(150 - e) as real
  }

  function Magnitude(e: nat, m: nat): real {
    if e == 0 then Scale(m, 1) else Scale(0x80_0000 + m, e)
  }

  /** The number a finite bit pattern denotes. */
  function Value(bits: nat): real {
    var v := Magnitude(ExponentField(bits), MantissaField(bits));
    if SignBit(bits) == 1 then -v else v
  }

  /** Bit patterns of the numbers below 2^32 in magnitude. */
  predicate IsSmall(bits: nat) {
    bits < 0x1_0000_0000 && ExponentField(bits) < 159
  }

  ghost predicate IsInteger(r: real) {
    r == r.Floor as real
  }

  ghost predicate IsLeastIntegerAbove(r: real, x: real) {
    IsInteger(r) && x <= r < x + 1.0
  }

  lemma IntegersAreInteger(n: int)
    ensures IsInteger(n as real)
  {
  }

  lemma NegatedInteger(r: real)
    requires IsInteger(r)
    ensures IsInteger(-r)
  {
    assert -r == (-r.Floor) as real;
  }

  // The bit operations as arithmetic ------------------------------------------

  lemma ExtractFields(bits: nat)
    requires bits < 0x1_0000_0000
    ensures Shr(bits, 31) == SignBit(bits) <= 1
    ensures Shr(And(bits, 0x7fff_ffff), 23) == ExponentField(bits) < 256
    ensures And(bits, 0x7f_ffff) == MantissaField(bits) < 0x80_0000
  {
    Pow2Values();
    Pow2Of23();
    hide Pow2, And, Shr;
    ShrIsQuotient(bits, 31);
    AndMask(bits, 31);
    ShrIsQuotient(And(bits, 0x7fff_ffff), 23);
    AndMask(bits, 23);
  }

  lemma Pow2Of23()
    ensures Pow2(23) == 0x80_0000
  {
    Pow2Values();
    assert Pow2(7) == 0x80;
    hide Pow2;
    Pow2Add(16, 7);
  }

  /** Putting sign, exponent and mantissa together again. */
  lemma Assemble(s: nat, e: nat, m: nat)
    requires s <= 1 && e < 256 && m < 0x80_0000
    ensures var bits := Or(Or(Shl(s, 31), Shl(e, 23)), m);
            bits < 0x1_0000_0000 && SignBit(bits) == s && ExponentField(bits) == e && MantissaField(bits) == m
  {
    Pow2Values();
    Pow2Of23();
    hide Pow2, Or, Shl;
    ShlIsProduct(s, 31);
    ShlIsProduct(e, 23);
    OrCommutes(Shl(s, 31), Shl(e, 23));
    OrLow(Shl(e, 23), s, 31);
    var high := Or(Shl(s, 31), Shl(e, 23));
    var hs := s * 0x100 + e;
    ShlIsProduct(hs, 23);
    assert high == Shl(hs, 23);
    OrCommutes(high, m);
    OrLow(m, hs, 23);
  }

  /** K - 1 masks the fraction of a number with exponent E, where K = 2^(23 - E). */
  lemma FractionMask(exponent: nat)
    requires exponent < 23
    ensures Shr(0x7f_ffff, exponent) == Pow2(23 - exponent) - 1
    ensures Shl(1, 23 - exponent) == Pow2(23 - exponent)
    ensures Pow2(exponent) * Pow2(23 - exponent) == 0x80_0000
  {
    Pow2Of23();
    hide Pow2, Shr, Shl;
    var e, k := Pow2(exponent), Pow2(23 - exponent);
    Pow2Add(exponent, 23 - exponent);
    ShrIsQuotient(0x7f_ffff, exponent);
    assert 0x7f_ffff == e * (k - 1) + (e - 1) by {
      assert e * (k - 1) == e * k - e;
    }
    RemainderUnique(0x7f_ffff, k - 1, e - 1, e);
    ShlIsProduct(1, 23 - exponent);
  }

  lemma NoFractionMask(exponent: nat)
    requires 23 <= exponent < 32
    ensures Shr(0x7f_ffff, exponent) == 0
  {
    Pow2Of23();
    Pow2Monotone(23, exponent);
    ShrIsQuotient(0x7f_ffff, exponent);
    hide Pow2, Shr;
    RemainderUnique(0x7f_ffff, 0, 0x7f_ffff, Pow2(exponent));
  }

  lemma AndZero(x: nat)
    ensures And(x, 0) == 0
  {
  }

  /** Clearing the low k bits of a 24-bit number. */
  lemma ClearLow(x: nat, k: nat, p: nat)
    requires k <= 23 && p == Pow2(k) <= 0x80_0000 && x < 0x100_0000
    ensures And(x, 0xFFFF_FFFF - (p - 1)) == Cleared(x, p)
  {
    Pow2Values();
    hide Pow2, And, Shr, Shl;
    var q := Pow2(32 - k);
    Pow2Add(32 - k, k);
    ShlIsProduct(q - 1, k);
    assert (q - 1) * p == q * p - p;
    AndShifted(x, q - 1, k);
    ShrIsQuotient(x, k);
    AndMask(x / p, 32 - k);
    QuotientBelow(x, p, q);
    RemainderUnique(x / p, 0, x / p, q);
    ShlIsProduct(x / p, k);
  }

  lemma QuotientBelow(x: nat, p: nat, q: nat)
    requires p > 0 && x < q * p
    ensures 0 <= x / p < q && x == x / p * p + x % p
  {
    var d := x / p;
    assert d >= q ==> p * d >= p * q;
  }

  /** m with its remainder by k taken off. */
  function Cleared(m: nat, k: nat): (r: nat)
    requires k > 0
    ensures r <= m
  {
    RemainderAtMost(m, k);
    m - m % k
  }

  lemma RemainderAtMost(m: nat, k: nat)
    requires k > 0
    ensures 0 <= m % k <= m
  {
    if m < k {
      RemainderUnique(m, 0, m, k);
    }
  }

  // Rounding the significand --------------------------------------------------

  /** A significand S = 2^23 + m over K = 2^(23 - E), with a non-zero fraction: the
      code's edits of m yield the next multiple of K above, with carry into the
      exponent exactly when adding K overflows 23 bits. */
  lemma RoundUpSignificand(m: nat, p: nat, k: nat)
    requires m < 0x80_0000 && p > 0 && k > 0 && p * k == 0x80_0000 && m % k != 0
    ensures m + k < 0x100_0000
    ensures m + k < 0x80_0000 ==>
              0x80_0000 + Cleared(m + k, k) == ((0x80_0000 + m) / k + 1) * k
    ensures m + k >= 0x80_0000 ==> 0x100_0000 == ((0x80_0000 + m) / k + 1) * k
    ensures (0x80_0000 + m) % k == m % k
  {
    var q, f := m / k, m % k;
    assert k <= p * k;
    assert 0x80_0000 + m == k * (p + q) + f by {
      assert k * (p + q) == k * p + k * q;
    }
    RemainderUnique(0x80_0000 + m, p + q, f, k);
    assert m + k == k * (q + 1) + f;
    RemainderUnique(m + k, q + 1, f, k);
    assert (p + q + 1) * k == 0x80_0000 + k * q + k by {
      assert (p + q + 1) * k == p * k + k * q + k;
    }
    if m + k >= 0x80_0000 {
      assert k * (q + 1) + f >= k * p;
      FactorsAgree(k, q + 1, p, f);
    }
  }

  lemma FactorsAgree(k: nat, q: nat, p: nat, f: nat)
    requires k * q + f >= k * p && f < k && k * (q - 1) + f < k * p
    ensures q == p
  {
    assert q < p ==> k * q <= k * (p - 1) == k * p - k;
    assert q > p ==> k * (q - 1) >= k * p;
  }

  // From significands to numbers ----------------------------------------------

  lemma QuotientReal(s: nat, k: nat)
    requires k > 0
    ensures var q, f, x := s / k, s % k, s as real / k as real;
            && q as real <= x < (q + 1) as real
            && (f == 0 <==> x == q as real)
  {
    var q, f, x := s / k, s % k, s as real / k as real;
    assert s == k * q + f;
    assert x * k as real == s as real;
    assert (q as real) * k as real == (k * q) as real;
    assert ((q + 1) as real) * k as real == (k * q + k) as real;
  }

  lemma MultipleReal(n: nat, k: nat)
    requires k > 0
    ensures (n * k) as real / k as real == n as real
  {
    assert (n as real) * k as real == (n * k) as real;
  }

  lemma HalveFraction(s: real, k: real)
    requires k > 0.0
    ensures s / k == (2.0 * s) / (2.0 * k)
  {
    var x := s / k;
    assert x * k == s;
    assert x * (2.0 * k) == 2.0 * (x * k);
  }

  /** Doubling the significand is worth one in the exponent. */
  lemma ScaleNext(sig: nat, e: nat)
    requires e < 150
    ensures Scale(sig, e + 1) == Scale(2 * sig, e)
  {
    var k := Pow2(149 - e);
    assert Pow2(150 - e) == 2 * k && (e == 149 ==> k == 1);
    hide Pow2;
    HalveFraction(sig as real, k as real);
    assert (2 * sig) as real == 2.0 * sig as real && (2 * k) as real == 2.0 * k as real;
  }

  /** Below exponent 0 the magnitude is below one, and zero only for zero. */
  lemma SmallMagnitude(e: nat, m: nat)
    requires e < 127 && m < 0x80_0000
    ensures 0.0 <= Magnitude(e, m) < 1.0
  {
    var sig, k := if e == 0 then m else 0x80_0000 + m, if e == 0 then 149 else 150 - e;
    Pow2Of23();
    assert Pow2(24) == 2 * Pow2(23);
    Pow2Monotone(24, k);
    hide Pow2;
    QuotientReal(sig, Pow2(k));
    RemainderUnique(sig, 0, sig, Pow2(k));
  }

  /** From exponent 23 on every number is an integer. */
  lemma LargeIsInteger(e: nat, m: nat)
    requires e >= 150
    ensures IsInteger(Magnitude(e, m))
  {
  }

  lemma OverflowBit(x: nat)
    requires x < 0x100_0000
    ensures And(x, 0x80_0000) != 0 <==> x >= 0x80_0000
  {
    Pow2Of23();
    assert Pow2(1) == 2 && Mask(1) == 1;
    hide Pow2, And, Shr, Shl;
    ShlIsProduct(1, 23);
    AndShifted(x, 1, 23);
    ShrIsQuotient(x, 23);
    AndMask(x / 0x80_0000, 1);
    ShlIsProduct(And(x / 0x80_0000, 1), 23);
  }

  lemma MagnitudeQuotient(e: nat, m: nat, k: nat)
    requires 127 <= e < 150 && k == Pow2(150 - e)
    ensures Magnitude(e, m) == (0x80_0000 + m) as real / k as real
  {
  }

  lemma FractionFree(e: nat, m: nat, p: nat, k: nat)
    requires 127 <= e < 150 && k == Pow2(150 - e) && m < 0x80_0000 && p * k == 0x80_0000 && m % k == 0
    ensures IsInteger(Magnitude(e, m))
  {
    hide Pow2;
    MagnitudeQuotient(e, m, k);
    QuotientReal(0x80_0000 + m, k);
    assert 0x80_0000 + m == k * (p + m / k) by {
      assert k * (p + m / k) == k * p + k * (m / k);
    }
    RemainderUnique(0x80_0000 + m, p + m / k, 0, k);
  }

  /** Without carry, the edited mantissa denotes the next integer above. */
  lemma RoundedUp(e: nat, m: nat, p: nat, k: nat)
    requires 127 <= e < 150 && k == Pow2(150 - e) && m < 0x80_0000 && p * k == 0x80_0000 && m % k != 0
    ensures m + k < 0x80_0000 ==> IsLeastIntegerAbove(Magnitude(e, Cleared(m + k, k)), Magnitude(e, m))
    ensures m + k >= 0x80_0000 ==> IsLeastIntegerAbove(Magnitude(e + 1, 0), Magnitude(e, m))
  {
    hide Pow2, Scale, Cleared;
    RoundUpSignificand(m, p, k);
    MagnitudeQuotient(e, m, k);
    QuotientReal(0x80_0000 + m, k);
    var n := (0x80_0000 + m) / k + 1;
    MultipleReal(n, k);
    if m + k < 0x80_0000 {
      MagnitudeQuotient(e, Cleared(m + k, k), k);
    } else {
      ScaleNext(0x80_0000, e);
      MagnitudeQuotient(e, 0x80_0000, k);
    }
  }

  /** Clearing the fraction of a negative number rounds it up. */
  lemma NegativeTruncated(e: nat, m: nat, p: nat, k: nat)
    requires 127 <= e < 150 && k == Pow2(150 - e) && m < 0x80_0000 && p * k == 0x80_0000 && m % k != 0
    ensures IsLeastIntegerAbove(-Magnitude(e, Cleared(m, k)), -Magnitude(e, m))
  {
    hide Pow2, Scale, Magnitude, Cleared, IsInteger;
    SplitSignificand(m, p, k);
    MagnitudeQuotient(e, m, k);
    MagnitudeQuotient(e, Cleared(m, k), k);
    QuotientReal(0x80_0000 + m, k);
    var n := (0x80_0000 + m) / k;
    MultipleReal(n, k);
    IntegersAreInteger(n);
    NegatedInteger(n as real);
  }

  lemma SplitSignificand(m: nat, p: nat, k: nat)
    requires k > 0 && p * k == 0x80_0000
    ensures (0x80_0000 + m) % k == m % k
    ensures (0x80_0000 + m) / k * k == 0x80_0000 + Cleared(m, k)
  {
    var q, f := m / k, m % k;
    assert 0x80_0000 + m == k * (p + q) + f by {
      assert k * (p + q) == k * p + k * q;
    }
    RemainderUnique(0x80_0000 + m, p + q, f, k);
  }

  /** Adding one unit overflows the mantissa exactly when all its integer bits are
      ones. */
  lemma CarryIffOnes(m: nat, exponent: nat)
    requires m < 0x80_0000 && exponent < 23
    ensures m + Shl(1, 23 - exponent) >= 0x80_0000 <==> Shr(m, 23 - exponent) == Mask(exponent)
  {
    FractionMask(exponent);
    hide Pow2, Shl, Shr;
    ShrIsQuotient(m, 23 - exponent);
    TopQuotient(m, Pow2(exponent), Pow2(23 - exponent));
  }

  lemma TopQuotient(m: nat, p: nat, k: nat)
    requires p > 0 && k > 0 && m < p * k
    ensures m + k >= p * k <==> m / k == p - 1
  {
    var q, f := m / k, m % k;
    assert k * (p - 1) == k * p - k;
    if q >= p {
      MulMonotone(k, p, q);
    } else if q < p - 1 {
      MulMonotone(k, q + 1, p - 1);
      assert k * (q + 1) == k * q + k;
    }
  }

  lemma MulMonotone(k: nat, a: nat, b: nat)
    requires a <= b
    ensures k * a <= k * b
  {
  }

  /** Everything the code computes for exponents 0 to 22, as arithmetic. */
  lemma FractionalCase(exponent: nat, m: nat, k: nat)
    requires exponent < 23 && m < 0x80_0000 && k == Pow2(23 - exponent)
    ensures Shr(0x7f_ffff, exponent) == k - 1 < 0x80_0000 && Shl(1, 23 - exponent) == k
    ensures And(m, k - 1) == m % k
    ensures m % k == 0 ==> IsInteger(Magnitude(exponent + 127, m)) && IsInteger(-Magnitude(exponent + 127, m))
    ensures m % k != 0 ==>
              && m + k < 0x100_0000
              && (And(m + k, 0x80_0000) != 0 <==> m + k >= 0x80_0000)
              && And(0, 0xFFFF_FFFF - (k - 1)) == 0
              && And(m + k, 0xFFFF_FFFF - (k - 1)) == Cleared(m + k, k)
              && And(m, 0xFFFF_FFFF - (k - 1)) == Cleared(m, k)
    ensures m % k != 0 && m + k < 0x80_0000 ==>
              IsLeastIntegerAbove(Magnitude(exponent + 127, Cleared(m + k, k)), Magnitude(exponent + 127, m))
    ensures m % k != 0 && m + k >= 0x80_0000 ==>
              IsLeastIntegerAbove(Magnitude(exponent + 128, 0), Magnitude(exponent + 127, m))
    ensures m % k != 0 ==>
              IsLeastIntegerAbove(-Magnitude(exponent + 127, Cleared(m, k)), -Magnitude(exponent + 127, m))
  {
    hide And, Shl, Shr, Pow2, Magnitude, IsLeastIntegerAbove;
    var p, e := Pow2(exponent), exponent + 127;
    FractionMask(exponent);
    UnitBounded(p, k);
    AndMask(m, 23 - exponent);
    if m % k == 0 {
      FractionFree(e, m, p, k);
      NegatedInteger(Magnitude(e, m));
    } else {
      RoundUpSignificand(m, p, k);
      RoundedUp(e, m, p, k);
      NegativeTruncated(e, m, p, k);
      OverflowBit(m + k);
      ClearLow(m, 23 - exponent, k);
      ClearLow(m + k, 23 - exponent, k);
      ClearLow(0, 23 - exponent, k);
      RemainderUnique(0, 0, 0, k);
    }
  }

  lemma UnitBounded(p: nat, k: nat)
    requires p > 0 && p * k == 0x80_0000
    ensures 0 < k <= 0x80_0000
  {
    assert k <= p * k;
    assert k <= 0 ==> p * k <= 0;
  }

  // The code ------------------------------------------------------------------

  /** x is exactly representable, with bit pattern bits, and below 2^32 in magnitude. */
  method Ceil(x: real, bits: nat) returns (r: real)
    requires IsSmall(bits) && x == Value(bits)
    ensures IsLeastIntegerAbove(r, x)
  {
    hide And, Or, Shl, Shr, Pow2, Magnitude, SignBit, ExponentField, MantissaField, Cleared, IsInteger;
    ExtractFields(bits);
    var sign := Shr(bits, 31);
    var exponent := Shr(And(bits, 0x7fff_ffff), 23) - 127;
    var mantissa := And(bits, 0x7f_ffff);
    if exponent < 0 {
      SmallMagnitude(exponent + 127, mantissa);
      IntegersAreInteger(0);
      IntegersAreInteger(1);
      if x <= 0.0 {
        return 0.0;
      } else {
        return 1.0;
      }
    }
    var mask := Shr(0x7f_ffff, exponent);
    if exponent >= 23 {
      NoFractionMask(exponent);
      AndZero(mantissa);
      LargeIsInteger(exponent + 127, mantissa);
      NegatedInteger(Magnitude(exponent + 127, mantissa));
    } else {
      FractionalCase(exponent, mantissa, Pow2(23 - exponent));
    }
    if And(mantissa, mask) == 0 {
      return x;
    }
    if sign == 0 {
      mantissa := mantissa + Shl(1, 23 - exponent);
      if And(mantissa, 0x80_0000) != 0 {
        mantissa := 0;
        exponent := exponent + 1;
      }
    }
    mantissa := And(mantissa, 0xFFFF_FFFF - mask);
    Assemble(sign, exponent + 127, mantissa);
    var result := Or(Or(Shl(sign, 31), Shl(exponent + 127, 23)), mantissa);
    r := Value(result);
  }
}
