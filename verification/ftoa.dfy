// Printing a fixed-point decimal, over exact reals.

module Ftoa {
  import opened Division
  import opened Numerals
  import opened Itoa
  import opened Atoi

  const MAX_PRECISION: int := 10

  const ROUNDERS: seq<real> := [
    0.5, 0.05, 0.005, 0.0005, 0.00005, 0.000005, 0.0000005, 0.00000005, 0.000000005,
    0.0000000005, 0.00000000005]

  function Abs(f: real): real {
    if f < 0.0 then -f else f
  }

  /** The precision used: capped, or guessed from the magnitude when negative. */
  function EffectivePrecision(f: real, precision: int): (p: nat)
    ensures p <= 10
  {
    if precision >= 0 then (if precision > MAX_PRECISION then MAX_PRECISION else precision)
    else if Abs(f) < 1.0 then 6
    else if Abs(f) < 10.0 then 5
    else if Abs(f) < 100.0 then 4
    else if Abs(f) < 1000.0 then 3
    else if Abs(f) < 10000.0 then 2
    else if Abs(f) < 100000.0 then 1
    else 0
  }

  function Pow10(p: nat): (n: nat)
    ensures n > 0
  {
    if p == 0 then 1 else 10 * Pow10(p - 1)
  }

  ghost function Scaled(x: real, p: nat): real {
    x * Pow10(p) as real
  }

  /** The magnitude in units of the last printed digit: rounded half up, except
      that with no decimals the code truncates. */
  ghost function Units(f: real, p: nat): (n: nat) {
    ScaledNonNegative(Abs(f), p);
    if p == 0 then Abs(f).Floor else (Scaled(Abs(f), p) + 0.5).Floor
  }

  lemma ScaledNonNegative(x: real, p: nat)
    requires x >= 0.0
    ensures Scaled(x, p) >= 0.0 && Scaled(x, p).Floor >= 0
  {
  }

  /** The p low decimal digits of n. */
  function Padded(n: nat, p: nat): (s: Text)
    ensures |s| == p
  {
    if p == 0 then [] else Padded(n / 10, p - 1) + [DigitChar(n % 10)]
  }

  function SignText(f: real): Text {
    if f < 0.0 then "-" else ""
  }

  ghost function Decimals(n: nat, p: nat): Text {
    if p == 0 then "" else "." + Padded(n % Pow10(p), p)
  }

  ghost function WholeUnits(n: nat, p: nat): nat {
    QuotientNonNegative(n, Pow10(p));
    n / Pow10(p)
  }

  lemma QuotientNonNegative(n: nat, m: nat)
    requires m > 0
    ensures n / m >= 0
  {
  }

  /** Sign, canonical integer part, decimal point, exactly p digits, terminator. */
  ghost function Printout(f: real, p: nat): Text {
    SignText(f) + Numeral(WholeUnits(Units(f, p), p), 10) + Decimals(Units(f, p), p) + "\0"
  }

  // Real arithmetic -----------------------------------------------------------

  lemma FloorUnique(x: real, n: int)
    requires n as real <= x < (n + 1) as real
    ensures x.Floor == n
  {
  }

  lemma {:induction false} RounderIsHalfUnit(p: nat)
    requires p <= 10
    ensures Scaled(ROUNDERS[p], p) == 0.5
  {
    if p > 0 {
      RounderIsHalfUnit(p - 1);
      assert ROUNDERS[p] * 10.0 == ROUNDERS[p - 1];
      var q := Pow10(p - 1) as real;
      assert Pow10(p) as real == 10.0 * q;
      assert ROUNDERS[p] * (10.0 * q) == (ROUNDERS[p] * 10.0) * q;
    }
  }

  lemma ScaledFraction(x: real, scale: nat)
    requires 0.0 <= x < 1.0 && scale > 0
    ensures 0 <= (x * scale as real).Floor < scale
  {
    var s := scale as real;
    assert 0.0 <= x * s < s;
  }

  lemma ScaledSum(whole: nat, x: real, scale: nat)
    requires 0.0 <= x < 1.0 && scale > 0
    ensures ((whole as real + x) * scale as real).Floor == scale * whole + (x * scale as real).Floor
  {
    var s := scale as real;
    var r := (x * s).Floor;
    assert (whole as real + x) * s == whole as real * s + x * s;
    assert whole as real * s == (scale * whole) as real;
    FloorUnique((whole as real + x) * s, scale * whole + r);
  }

  /** Splitting off the integer part commutes with scaling. */
  lemma SplitUnits(g: real, p: nat)
    requires g >= 0.0
    ensures var x := g - g.Floor as real;
            && 0.0 <= x < 1.0
            && Scaled(g, p).Floor / Pow10(p) == g.Floor
            && Scaled(g, p).Floor % Pow10(p) == Scaled(x, p).Floor
  {
    var whole, x, scale := g.Floor, g - g.Floor as real, Pow10(p);
    ScaledFraction(x, scale);
    ScaledSum(whole, x, scale);
    RemainderUnique(Scaled(g, p).Floor, whole, Scaled(x, p).Floor, scale);
  }

  lemma ScaledNext(x: real, k: nat)
    ensures Scaled(x, k + 1) == 10.0 * Scaled(x, k)
  {
    var q := Pow10(k) as real;
    assert Pow10(k + 1) as real == 10.0 * q;
    assert x * (10.0 * q) == 10.0 * (x * q);
  }

  /** One more decimal of a fraction. */
  lemma NextDecimal(x: real, k: nat, f: real, n: nat)
    requires 0.0 <= x < 1.0
    requires n == Scaled(x, k).Floor && f == Scaled(x, k) - n as real
    ensures 0.0 <= f < 1.0 && 0 <= (f * 10.0).Floor < 10
    ensures var d := (f * 10.0).Floor;
            && Scaled(x, k + 1).Floor == 10 * n + d
            && f * 10.0 - d as real == Scaled(x, k + 1) - (10 * n + d) as real
            && Padded(10 * n + d, k + 1) == Padded(n, k) + [DigitChar(d)]
  {
    hide Scaled, DigitChar, Pow10;
    var d := (f * 10.0).Floor;
    ScaledNext(x, k);
    FloorUnique(Scaled(x, k + 1), 10 * n + d);
    RemainderUnique(10 * n + d, n, d, 10);
  }

  // The code ------------------------------------------------------------------

  /** The integer part: digits written backwards and then reversed in place. */
  method WriteInteger(buf: array<CChar>, start: int, n: int) returns (end: int)
    requires 0 < n < 0x8000_0000
    requires 0 <= start && start + |Numeral(n, 10)| <= buf.Length
    modifies buf
    ensures end == start + |Numeral(n, 10)|
    ensures buf[..end] == old(buf[..start]) + Numeral(n, 10)
    ensures buf[end..] == old(buf[end..])
  {
    var p := WriteReversed(buf, start, n);
    end := p;
    ReverseRange(buf, start, end);
  }

  method WriteReversed(buf: array<CChar>, start: int, n: int) returns (p: int)
    requires 0 < n < 0x8000_0000
    requires 0 <= start && start + |Numeral(n, 10)| <= buf.Length
    modifies buf
    ensures p == start + |Numeral(n, 10)|
    ensures buf[..start] == old(buf[..start]) && buf[p..] == old(buf[p..])
    ensures Backwards(buf[start..p]) == Numeral(n, 10)
  {
    hide Numeral, DigitChar;
    var intPart := n;
    p := start;
    assert buf[start..p] == [];
    while intPart != 0
      invariant 0 <= intPart < 0x8000_0000 && start <= p <= start + |Numeral(n, 10)|
      invariant intPart == 0 ==> p > start
      invariant Splits(n, 10, intPart, buf[start..p])
      invariant forall i :: 0 <= i < start || p <= i < buf.Length ==> buf[i] == old(buf[i])
    {
      SplitsStep(n, 10, intPart, buf[start..p]);
      NumeralCanonical(intPart, 10);
      QuotientShrinks(intPart, 10);
      var d := intPart % 10;
      ghost var done := buf[start..p];
      DecimalDigit(d);
      buf[p] := '0' + d as char;
      assert buf[start..p + 1] == done + [DigitChar(d)];
      p := p + 1;
      intPart := intPart / 10;
    }
  }

  lemma DecimalDigit(d: nat)
    requires d < 10
    ensures DigitChar(d) == '0' + d as char
  {
  }

  method ReverseRange(buf: array<CChar>, start: int, end: int)
    requires 0 <= start <= end <= buf.Length
    modifies buf
    ensures buf[..end] == old(buf[..start]) + Backwards(old(buf[start..end]))
    ensures buf[end..] == old(buf[end..])
  {
    var ptr, p := start, end;
    while p > ptr
      invariant start <= ptr <= p + 1 && p <= end && ptr - start == end - p
      invariant forall i :: 0 <= i < start || ptr <= i < p || end <= i < buf.Length ==> buf[i] == old(buf[i])
      invariant forall i :: start <= i < ptr || p <= i < end ==> buf[i] == old(buf[start + end - 1 - i])
    {
      p := p - 1;
      var c := buf[p];
      buf[p] := buf[ptr];
      buf[ptr] := c;
      ptr := ptr + 1;
    }
    assert buf[..end] == old(buf[..start]) + Backwards(old(buf[start..end]));
  }

  /** The decimals of x in [0, 1), truncated to p digits. */
  method WriteDecimals(buf: array<CChar>, start: int, x: real, p: nat) returns (end: int)
    requires 0.0 <= x < 1.0 && 0 <= start && start + p <= buf.Length
    modifies buf
    ensures end == start + p
    ensures 0 <= Scaled(x, p).Floor
    ensures buf[..end] == old(buf[..start]) + Padded(Scaled(x, p).Floor, p)
    ensures buf[end..] == old(buf[end..])
  {
    hide DigitChar, Padded, Pow10, Scaled;
    var f, precision := x, p;
    end := start;
    ghost var k, n := 0, 0;
    StartDecimals(x);
    assert buf[..end] == old(buf[..start]) + [];
    while precision != 0
      invariant 0 <= precision && k == p - precision && end == start + k
      invariant n >= 0 && n == Scaled(x, k).Floor && f == Scaled(x, k) - n as real
      invariant buf[..end] == old(buf[..start]) + Padded(n, k)
      invariant buf[start + p..] == old(buf[start + p..])
    {
      NextDecimal(x, k, f, n);
      precision := precision - 1;
      f := f * 10.0;
      var c := f.Floor;
      ghost var before := buf[..end];
      DecimalDigit(c);
      buf[end] := '0' + c as char;
      assert buf[..end + 1] == before + [DigitChar(c)];
      end := end + 1;
      f := f - c as real;
      k, n := k + 1, 10 * n + c;
    }
  }

  lemma StartDecimals(x: real)
    requires 0.0 <= x < 1.0
    ensures Scaled(x, 0) == x && x.Floor == 0 && Padded(0, 0) == []
  {
  }

  lemma PowersOfTen()
    ensures Pow10(1) == 10 && Pow10(2) == 100 && Pow10(3) == 1000 && Pow10(4) == 10000
    ensures Pow10(5) == 100000 && Pow10(6) == 1000000
  {
    assert Pow10(3) == 1000;
    assert Pow10(5) == 100 * Pow10(3);
  }

  /** A precision from 0 to 10 is taken as it is and a greater one as 10. In place of a
      negative one, as many decimals up to six are shown as leave at most six digits, the
      integer part included. */
  ghost predicate IsPrecision(p: nat, magnitude: real, precision: int) {
    if precision >= 0 then
      p <= 10 && p <= precision && (p == precision || p == 10)
    else
      && p <= 6
      && (p > 0 ==> magnitude * Pow10(p) as real < 1000000.0)
      && (p < 6 ==> magnitude * Pow10(p + 1) as real >= 1000000.0)
  }

  method ChoosePrecision(g: real, precision: int) returns (prec: int)
    requires g >= 0.0
    ensures prec == EffectivePrecision(g, precision) && 0 <= prec <= 10 && IsPrecision(prec, g, precision)
  {
    PowersOfTen();
    hide Pow10;
    prec := precision;
    if prec > MAX_PRECISION {
      prec := MAX_PRECISION;
    }
    if prec < 0 {
      if g < 1.0 { prec := 6; }
      else if g < 10.0 { prec := 5; }
      else if g < 100.0 { prec := 4; }
      else if g < 1000.0 { prec := 3; }
      else if g < 10000.0 { prec := 2; }
      else if g < 100000.0 { prec := 1; }
      else { prec := 0; }
    }
  }

  method WriteWhole(buf: array<CChar>, start: int, n: int) returns (end: int)
    requires 0 <= n < 0x8000_0000
    requires 0 <= start && start + |Numeral(n, 10)| <= buf.Length
    modifies buf
    ensures end == start + |Numeral(n, 10)|
    ensures buf[..end] == old(buf[..start]) + Numeral(n, 10)
    ensures buf[end..] == old(buf[end..])
  {
    hide Numeral;
    if n == 0 {
      NumeralOfDigit(0, 10);
      buf[start] := '0';
      end := start + 1;
    } else {
      end := WriteInteger(buf, start, n);
    }
  }

  ghost function Tail(n: nat, p: nat): Text {
    (if p == 0 then "" else "." + Padded(n, p)) + "\0"
  }

  method WriteTail(buf: array<CChar>, start: int, x: real, p: nat) returns (end: int)
    requires 0.0 <= x < 1.0 && 0 <= start && start + p + 2 <= buf.Length + if p == 0 then 1 else 0
    modifies buf
    ensures 0 <= Scaled(x, p).Floor
    ensures end == start + |Tail(Scaled(x, p).Floor, p)|
    ensures buf[..end] == old(buf[..start]) + Tail(Scaled(x, p).Floor, p)
    ensures buf[end..] == old(buf[end..])
  {
    hide Scaled, Padded;
    end := start;
    ghost var before := buf[..start];
    if p != 0 {
      buf[end] := '.';
      end := WriteDecimals(buf, end + 1, x, p);
      assert buf[..end] == before + ("." + Padded(Scaled(x, p).Floor, p));
    } else {
      StartDecimals(x);
    }
    ghost var written := buf[..end];
    buf[end] := '\0';
    end := end + 1;
    assert buf[..end] == written + "\0";
  }

  /** What is added before truncation: nothing when no decimals are asked for. */
  function Rounder(p: nat): real
    requires p <= 10
  {
    if p == 0 then 0.0 else ROUNDERS[p]
  }

  /** For every f whose rounded magnitude fits a 32-bit long. */
  method Ftoa(f: real, buf: array<CChar>, precision: int)
    returns (len: int, ghost p: nat, ghost whole: Text, ghost decimals: Text)
    requires Abs(f) + Rounder(EffectivePrecision(f, precision)) < 2147483648.0
    requires |Printout(f, EffectivePrecision(f, precision))| <= buf.Length
    modifies buf
    ensures len == |Printout(f, EffectivePrecision(f, precision))|
    ensures buf[..len] == Printout(f, EffectivePrecision(f, precision))
    ensures buf[len..] == old(buf[len..])
    ensures 0 <= len <= buf.Length && Spells(buf[..len], whole, decimals, f, p)
    ensures IsPrecision(p, if f < 0.0 then -f else f, precision)
  {
    hide Numeral, Padded, Pow10, Scaled, Spells, IsPrecision;
    var ptr := 0;
    var g := f;
    if g < 0.0 {
      g := -g;
      buf[ptr] := '-';
      ptr := ptr + 1;
    }
    var prec := ChoosePrecision(g, precision);
    if prec != 0 {
      g := g + ROUNDERS[prec];
    }
    ghost var n := Units(f, prec);
    UnitsSplit(f, prec, g);
    RounderBounds(prec);
    var intPart := g.Floor;
    g := g - intPart as real;
    assert buf[..ptr] == SignText(f);
    ptr := WriteWhole(buf, ptr, intPart);
    ghost var before := buf[..ptr];
    len := WriteTail(buf, ptr, g, prec);
    assert Printout(f, prec) == before + Tail(n % Pow10(prec), prec);
    p, whole, decimals := prec, Numeral(WholeUnits(n, prec), 10), Padded(n % Pow10(prec), prec);
    PrintoutSpells(f, prec);
  }

  lemma RounderBounds(p: nat)
    requires p <= 10
    ensures 0.0 < ROUNDERS[p] <= 0.5
  {
  }

  /** The rounded magnitude g splits into the integer part and the fraction that
      the printed units have. */
  lemma UnitsSplit(f: real, p: nat, g: real)
    requires p <= 10 && g == if p == 0 then Abs(f) else Abs(f) + ROUNDERS[p]
    ensures var n, x := Units(f, p), g - g.Floor as real;
            && WholeUnits(n, p) == g.Floor
            && 0.0 <= x < 1.0
            && n % Pow10(p) == Scaled(x, p).Floor
  {
    hide Scaled, Pow10;
    SplitUnits(g, p);
    if p == 0 {
      ScaledByOne(g);
    } else {
      ScaleRounded(Abs(f), p);
    }
  }

  lemma ScaledByOne(x: real)
    ensures Scaled(x, 0) == x
  {
  }

  lemma ScaleRounded(a: real, p: nat)
    requires p <= 10
    ensures Scaled(a + ROUNDERS[p], p) == Scaled(a, p) + 0.5
  {
    RounderIsHalfUnit(p);
    var s, r := Pow10(p) as real, ROUNDERS[p];
    assert (a + r) * s == a * s + r * s;
  }

  // What the printout says ----------------------------------------------------

  lemma {:induction false} HornerPadded(s: Text, r: nat, p: nat)
    requires r < Pow10(p)
    ensures Horner(s + Padded(r, p), 10) == Horner(s, 10) * Pow10(p) + r
    ensures forall i :: 0 <= i < p ==> '0' <= Padded(r, p)[i] <= '9'
  {
    if p == 0 {
      assert s + [] == s;
    } else {
      HornerPadded(s, r / 10, p - 1);
      hide Horner, DigitValue;
      DigitRoundTrip(r % 10, '0');
      DecimalDigit(r % 10);
      assert s + Padded(r, p) == (s + Padded(r / 10, p - 1)) + [DigitChar(r % 10)];
      HornerAppend(s + Padded(r / 10, p - 1), DigitChar(r % 10), 10);
      Distribute(Horner(s, 10), Pow10(p - 1), r);
    }
  }

  lemma Distribute(h: nat, q: nat, r: nat)
    ensures (h * q + r / 10) * 10 + r % 10 == h * (10 * q) + r
  {
    assert h * (10 * q) == 10 * (h * q);
  }

  /** The digits around the decimal point spell the magnitude in units of 10^-p,
      and with decimals that is the nearest such number, ties away from zero. */
  lemma PrintoutMeaning(f: real, p: nat)
    requires p <= 10
    ensures var n := Units(f, p);
            && Horner(Numeral(WholeUnits(n, p), 10) + Padded(n % Pow10(p), p), 10) == n
            && IsCanonical(Numeral(WholeUnits(n, p), 10), 10)
            && (p > 0 ==> n as real - 0.5 <= Scaled(Abs(f), p) < n as real + 0.5)
            && (p == 0 ==> n as real <= Abs(f) < n as real + 1.0)
  {
    hide Numeral, Horner, Scaled, Padded, Pow10, IsCanonical;
    var n := Units(f, p);
    var q := WholeUnits(n, p);
    NumeralCanonical(q, 10);
    NumeralValue(q, 10);
    HornerPadded(Numeral(q, 10), n % Pow10(p), p);
    QuotientTimes(n, Pow10(p));
  }

  ghost predicate Rounds(n: nat, f: real, p: nat) {
    var magnitude := if f < 0.0 then -f else f;
    if p == 0 then n as real <= magnitude < n as real + 1.0
    else n as real - 0.5 <= magnitude * Pow10(p) as real < n as real + 0.5
  }

  lemma UnitsRound(f: real, p: nat)
    ensures Rounds(Units(f, p), f, p)
  {
    hide Pow10;
    assert Scaled(Abs(f), p) == Abs(f) * Pow10(p) as real;
  }

  lemma RoundsOnce(n: nat, k: nat, f: real, p: nat)
    requires Rounds(n, f, p) && Rounds(k, f, p)
    ensures n == k
  {
    hide Pow10;
  }

  /** s is how f is written with p decimals: a minus sign exactly if f is negative, the
      integer part without leading zeros, a point and p digits unless p is 0, and the
      terminator. The digits spell the magnitude in units of 10^-p, to the nearest with ties
      away from zero, and truncated if p is 0. */
  ghost predicate Spells(s: Text, whole: Text, decimals: Text, f: real, p: nat) {
    && s == (if f < 0.0 then "-" else "") + whole + (if p == 0 then "" else "." + decimals) + "\0"
    && IsCanonical(whole, 10) && |decimals| == p && AllDigits(decimals, 10)
    && Rounds(Horner(whole + decimals, 10), f, p)
  }

  lemma PrintoutSpells(f: real, p: nat)
    requires p <= 10
    ensures Spells(Printout(f, p), Numeral(WholeUnits(Units(f, p), p), 10), Padded(Units(f, p) % Pow10(p), p), f, p)
  {
    hide Numeral, Horner, IsCanonical, Padded, WholeUnits, AllDigits, Units, Pow10, Rounds, Scaled;
    PrintoutMeaning(f, p);
    PaddedDigits(Units(f, p) % Pow10(p), p);
    UnitsRound(f, p);
  }

  lemma {:induction false} PaddedDigits(n: nat, p: nat)
    ensures AllDigits(Padded(n, p), 10)
  {
    hide DigitChar, DigitValue;
    if p > 0 {
      PaddedDigits(n / 10, p - 1);
      DigitRoundTrip(n % 10, '0');
    }
  }

  lemma {:induction false} HornerConcat(s: Text, t: Text)
    requires AllDigits(t, 10)
    ensures Horner(s + t, 10) == Horner(s, 10) * Pow10(|t|) + Horner(t, 10) && Horner(t, 10) < Pow10(|t|)
  {
    hide DigitValue;
    if t == [] {
      assert s + t == s;
    } else {
      var k := |t| - 1;
      var front, last := t[..k], t[k];
      HornerConcat(s, front);
      hide Horner;
      assert t == front + [last] && s + t == (s + front) + [last];
      HornerAppend(front, last, 10);
      HornerAppend(s + front, last, 10);
      TenTimes(Horner(s, 10), Pow10(k), Horner(front, 10));
    }
  }

  lemma TenTimes(h: nat, q: nat, r: nat)
    ensures (h * q + r) * 10 == h * (10 * q) + r * 10
  {
    assert h * (10 * q) == 10 * (h * q);
  }

  lemma {:induction false} SameDigits(a: Text, b: Text)
    requires |a| == |b| && AllDigits(a, 10) && AllDigits(b, 10) && Horner(a, 10) == Horner(b, 10)
    ensures a == b
  {
    hide DigitValue;
    if a != [] {
      var k := |a| - 1;
      DigitRoundTrip(0, a[k]);
      DigitRoundTrip(0, b[k]);
      SameEnds(Horner(a[..k], 10), Horner(b[..k], 10), DigitValue(a[k]), DigitValue(b[k]));
      SameDigits(a[..k], b[..k]);
      assert a == a[..k] + [a[k]] && b == b[..k] + [b[k]];
    }
  }

  lemma SameEnds(x: nat, y: nat, d: nat, e: nat)
    requires d < 10 && e < 10 && x * 10 + d == y * 10 + e
    ensures x == y && d == e
  {
  }

  /** No other text does. */
  lemma SpelledOneWay(s: Text, whole: Text, decimals: Text, t: Text, whole': Text, decimals': Text, f: real, p: nat)
    requires Spells(s, whole, decimals, f, p) && Spells(t, whole', decimals', f, p)
    ensures s == t
  {
    hide Horner, AllDigits, Pow10, Rounds, IsCanonical;
    HornerConcat(whole, decimals);
    HornerConcat(whole', decimals');
    RoundsOnce(Horner(whole + decimals, 10), Horner(whole' + decimals', 10), f, p);
    var n, m := Horner(whole + decimals, 10), Pow10(p);
    TimesSwap(Horner(whole, 10), m);
    TimesSwap(Horner(whole', 10), m);
    RemainderUnique(n, Horner(whole, 10), Horner(decimals, 10), m);
    RemainderUnique(n, Horner(whole', 10), Horner(decimals', 10), m);
    CanonicalIsNumeral(whole, 10);
    CanonicalIsNumeral(whole', 10);
    SameDigits(decimals, decimals');
  }

  lemma TimesSwap(x: nat, y: nat)
    ensures x * y == y * x
  {
  }

  /** atoi reads the signed integer part back. */
  lemma IntegerPartParsed(s: Text, whole: Text, decimals: Text, f: real, p: nat)
    requires Spells(s, whole, decimals, f, p)
    ensures Parsed(s) == if f < 0.0 then -(Horner(whole, 10) as int) else Horner(whole, 10)
  {
    hide Horner, DigitRun;
    var rest := whole + (if p == 0 then "" else "." + decimals) + "\0";
    assert s == (if f < 0.0 then "-" else "") + rest;
    forall i | 0 <= i < |whole|
      ensures IsDigit(rest[i])
    {
      assert rest[i] == whole[i];
      IsDigitMeaning(whole[i]);
    }
    IsDigitMeaning(rest[0]);
    IsDigitMeaning(rest[|whole|]);
    assert rest[|whole|] == if p == 0 then '\0' else '.';
    assert AfterSign(s) == rest;
    RunUnique(rest, |whole|);
    assert rest[..|whole|] == whole;
  }

  lemma QuotientTimes(n: nat, m: nat)
    requires m > 0
    ensures n == n / m * m + n % m
  {
    assert n / m * m == m * (n / m);
  }

  /** Without decimals the code truncates, so it rounds correctly exactly when the
      fraction is below one half. */
  lemma NoDecimalsTruncates(f: real)
    ensures Units(f, 0) == (Abs(f) + 0.5).Floor <==> Abs(f) - Abs(f).Floor as real < 0.5
  {
  }

  /** One half with no decimals prints 0, not 1. */
  lemma TruncatedExample()
    ensures Units(0.5, 0) == 0 && (Abs(0.5) + 0.5).Floor == 1
  {
  }
}
