// Numerals in any radix from 2 to 36, and their values.

module Numerals {
  import opened Division
  import opened ModularPowers
  import opened Bits

  /** A C char, by its unsigned byte. */
  type CChar = c: char | c as int < 256 witness '0'
  type Text = seq<CChar>

  predicate IsRadix(r: int) {
    2 <= r <= 36
  }

  function DigitChar(d: nat): CChar
    requires d < 36
  {
    if d < 10 then '0' + d as char else 'a' + (d - 10) as char
  }

  /** The value of a digit, or 36 for any other character. */
  function DigitValue(c: CChar): nat {
    if '0' <= c <= '9' then c as int - '0' as int
    else if 'a' <= c <= 'z' then c as int - 'a' as int + 10
    else 36
  }

  /** The canonical numeral of v. */
  function Numeral(v: nat, r: nat): Text
    requires IsRadix(r)
  {
    if v < r then [DigitChar(v)]
    else
      QuotientSmaller(v, r);
      Numeral(v / r, r) + [DigitChar(v % r)]
  }

  lemma QuotientSmaller(v: nat, r: nat)
    requires 2 <= r <= v
    ensures 0 < v / r < v
    ensures v == (v / r) * r + v % r
  {
    var q := v / r;
    assert q <= 0 ==> r * q <= 0;
    assert q >= v ==> r * q >= 2 * v;
  }

  /** Horner's rule. */
  function Horner(s: Text, r: nat): nat {
    if s == [] then 0 else Horner(s[..|s| - 1], r) * r + DigitValue(s[|s| - 1])
  }

  ghost predicate AllDigits(s: Text, r: nat) {
    forall i :: 0 <= i < |s| ==> DigitValue(s[i]) < r
  }

  /** Digits only, at least one, and no leading zero unless the numeral is "0". */
  ghost predicate IsCanonical(s: Text, r: nat) {
    s != [] && AllDigits(s, r) && (|s| > 1 ==> s[0] != '0')
  }

  lemma DigitRoundTrip(d: nat, c: CChar)
    ensures d < 36 ==> DigitValue(DigitChar(d)) == d
    ensures DigitValue(c) < 36 ==> DigitChar(DigitValue(c)) == c
  {
  }

  const DIGITS: string := "0123456789abcdefghijklmnopqrstuvwxyz"

  lemma DigitsInOrder(d: nat)
    requires d < 36
    ensures |DIGITS| == 36 && DigitChar(d) == DIGITS[d] && DigitValue(DigitChar(d)) == d
  {
  }

  lemma HornerAppend(s: Text, c: CChar, r: nat)
    ensures Horner(s + [c], r) == Horner(s, r) * r + DigitValue(c)
  {
    assert (s + [c])[..|s|] == s;
  }

  /** A numeral evaluates to the number it was made from. */
  lemma {:induction false} NumeralValue(v: nat, r: nat)
    requires IsRadix(r)
    ensures Horner(Numeral(v, r), r) == v
  {
    hide DigitChar, DigitValue, Horner;
    if v < r {
      HornerDigit(DigitChar(v), r);
      DigitRoundTrip(v, '0');
    } else {
      QuotientSmaller(v, r);
      NumeralValue(v / r, r);
      HornerAppend(Numeral(v / r, r), DigitChar(v % r), r);
      DigitRoundTrip(v % r, '0');
    }
  }

  lemma HornerDigit(c: CChar, r: nat)
    ensures Horner([c], r) == DigitValue(c)
  {
    HornerAppend([], c, r);
    assert [] + [c] == [c];
  }

  lemma {:induction false} NumeralCanonical(v: nat, r: nat)
    requires IsRadix(r)
    ensures IsCanonical(Numeral(v, r), r)
    ensures v > 0 ==> Numeral(v, r)[0] != '0'
  {
    if v >= r {
      hide DigitChar, DigitValue;
      QuotientSmaller(v, r);
      NumeralCanonical(v / r, r);
      DigitRoundTrip(v % r, '0');
    } else {
      hide Numeral;
      assert Numeral(v, r) == [DigitChar(v)] by {
        NumeralOfDigit(v, r);
      }
    }
  }

  lemma NumeralOfDigit(d: nat, r: nat)
    requires IsRadix(r) && d < r
    ensures Numeral(d, r) == [DigitChar(d)]
  {
  }

  /** Conversely, a canonical text is the numeral of its value, so numerals and
      canonical texts correspond one to one. */
  lemma {:induction false} CanonicalIsNumeral(s: Text, r: nat)
    requires IsRadix(r) && IsCanonical(s, r)
    ensures Numeral(Horner(s, r), r) == s
  {
    hide DigitChar, DigitValue, Horner;
    var n := |s| - 1;
    var front, last := s[..n], s[n];
    assert s == front + [last];
    DigitRoundTrip(0, last);
    if n == 0 {
      assert s == [last];
      HornerDigit(last, r);
      NumeralOfDigit(DigitValue(last), r);
    } else {
      HornerAppend(front, last, r);
      CanonicalIsNumeral(front, r);
      NonZeroHorner(front, r);
      NumeralAppend(Horner(front, r), DigitValue(last), r);
    }
  }

  lemma NumeralAppend(h: nat, d: nat, r: nat)
    requires IsRadix(r) && 0 < h && d < r
    ensures Numeral(h * r + d, r) == Numeral(h, r) + [DigitChar(d)]
  {
    hide Numeral, DigitChar;
    AppendDigit(h, d, r);
    NumeralStep(h * r + d, r);
  }

  lemma NumeralStep(v: nat, r: nat)
    requires IsRadix(r) && r <= v
    ensures v / r >= 0 && Numeral(v, r) == Numeral(v / r, r) + [DigitChar(v % r)]
  {
    QuotientSmaller(v, r);
  }

  lemma AppendDigit(h: nat, d: nat, r: nat)
    requires 0 < h && d < r
    ensures h * r + d >= r && (h * r + d) / r == h && (h * r + d) % r == d
  {
    assert h * r >= r;
    RemainderUnique(h * r + d, h, d, r);
  }

  lemma {:induction false} NonZeroHorner(s: Text, r: nat)
    requires IsRadix(r) && s != [] && AllDigits(s, r) && s[0] != '0'
    ensures Horner(s, r) > 0
  {
    var n := |s| - 1;
    var front, last := s[..n], s[n];
    assert s == front + [last];
    if n == 0 {
      assert s == [last];
      HornerDigit(last, r);
    } else {
      hide DigitValue, Horner;
      NonZeroHorner(front, r);
      HornerAppend(front, last, r);
      ProductPositive(Horner(front, r), r);
    }
  }

  lemma ProductPositive(h: nat, r: nat)
    requires r > 0
    ensures h * r >= h
  {
  }

  /** Longer texts have larger values: appending never decreases. */
  lemma {:induction false} HornerPrefix(s: Text, k: nat, r: nat)
    requires k <= |s| && r > 0
    ensures Horner(s[..k], r) <= Horner(s, r)
  {
    hide DigitValue, Horner;
    if k < |s| {
      var front, last := s[..|s| - 1], s[|s| - 1];
      HornerPrefix(front, k, r);
      assert front[..k] == s[..k];
      assert s == front + [last];
      HornerAppend(front, last, r);
      ProductPositive(Horner(front, r), r);
    } else {
      assert s[..k] == s;
    }
  }

  lemma {:induction false} NumeralLength(v: nat, r: nat, n: nat)
    requires IsRadix(r) && n > 0 && v < Pow(r, n)
    ensures |Numeral(v, r)| <= n
  {
    if v >= r {
      QuotientSmaller(v, r);
      QuotientBelow(v, r, n);
      hide Pow;
      NumeralLength(v / r, r, n - 1);
    }
  }

  lemma QuotientBelow(v: nat, r: nat, n: nat)
    requires 2 <= r <= v && n > 0 && v < Pow(r, n)
    ensures n > 1 && v / r < Pow(r, n - 1)
  {
    var q, p := v / r, Pow(r, n - 1);
    assert n == 1 ==> p == 1;
    assert q >= p ==> r * q >= r * p;
  }

  lemma {:induction false} PowMonotone(q: nat, r: nat, n: nat)
    requires 0 < q <= r
    ensures 0 < Pow(q, n) <= Pow(r, n)
  {
    if n > 0 {
      PowMonotone(q, r, n - 1);
      ProductMonotone(q, r, Pow(q, n - 1), Pow(r, n - 1));
    }
  }

  lemma ProductMonotone(q: nat, r: nat, x: nat, y: nat)
    requires 0 < q <= r && 0 < x <= y
    ensures 0 < q * x <= r * y
  {
    assert q * x <= r * x;
    assert r * x <= r * y;
  }

  lemma {:induction false} PowOfTwo(n: nat)
    ensures Pow(2, n) == Pow2(n)
  {
    if n > 0 {
      PowOfTwo(n - 1);
    }
  }

  /** No 64-bit value needs more than 64 digits. */
  lemma NumeralFits64(v: nat, r: nat)
    requires IsRadix(r) && v < 0x1_0000_0000_0000_0000
    ensures |Numeral(v, r)| <= 64
  {
    Pow2Values();
    PowOfTwo(64);
    PowMonotone(2, r, 64);
    hide Pow;
    NumeralLength(v, r, 64);
  }
}
