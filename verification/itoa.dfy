// Printing an integer in a given radix: digits collected backwards in a scratch
// buffer, then copied out in reverse.

module Itoa {
  import opened Numerals

  newtype int64 = x: int | -0x8000_0000_0000_0000 <= x < 0x8000_0000_0000_0000
  newtype uint64 = x: int | 0 <= x < 0x1_0000_0000_0000_0000

  /** The value printed: the magnitude in radix 10, the 64-bit unsigned image of
      the value in any other radix. */
  function Magnitude(value: int64, radix: int): nat {
    if value >= 0 then value as int
    else if radix == 10 then -(value as int)
    else value as int + 0x1_0000_0000_0000_0000
  }

  function Sign(value: int64, radix: int): Text {
    if radix == 10 && value < 0 then "-" else ""
  }

  /** The text of a value. */
  function Printed(value: int64, radix: int): Text
    requires IsRadix(radix)
  {
    Sign(value, radix) + Numeral(Magnitude(value, radix), radix)
  }

  /** s is how the value is written: in radix 10 the digits of its magnitude, behind a minus
      sign if it is negative; in any other radix the digits of the number below 2^64 that
      differs from it by a multiple of 2^64, without a sign. No leading zeros. */
  ghost predicate Denotes(s: Text, value: int64, radix: nat) {
    if radix == 10 && value < 0 then
      s != [] && s[0] == '-' && IsCanonical(s[1..], 10) && value as int == 0 - Horner(s[1..], 10)
    else if radix == 10 then
      IsCanonical(s, 10) && value as int == Horner(s, 10)
    else
      && IsCanonical(s, radix) && Horner(s, radix) < 0x1_0000_0000_0000_0000
      && (Horner(s, radix) as int - value as int) % 0x1_0000_0000_0000_0000 == 0
  }

  /** What is printed denotes the value and is the only text that does; it takes at most 64
      digits and a sign. */
  lemma PrintedMeaning(value: int64, radix: int)
    requires IsRadix(radix)
    ensures Denotes(Printed(value, radix), value, radix)
    ensures 1 <= |Printed(value, radix)| <= 65
    ensures forall s :: Denotes(s, value, radix) ==> s == Printed(value, radix)
  {
    hide Numeral, Horner;
    var m := Magnitude(value, radix);
    NumeralCanonical(m, radix);
    NumeralValue(m, radix);
    NumeralFits64(m, radix);
    assert Printed(value, radix)[|Sign(value, radix)|..] == Numeral(m, radix);
    assert Sign(value, radix) == "" ==> Printed(value, radix) == Numeral(m, radix);
    forall s | Denotes(s, value, radix)
      ensures s == Printed(value, radix)
    {
      DenotedMagnitude(s, value, radix);
      CanonicalIsNumeral(if radix == 10 && value < 0 then s[1..] else s, radix);
    }
  }

  lemma DenotedMagnitude(s: Text, value: int64, radix: int)
    requires IsRadix(radix) && Denotes(s, value, radix)
    ensures Horner(if radix == 10 && value < 0 then s[1..] else s, radix) == Magnitude(value, radix)
  {
    hide Horner;
    if radix != 10 {
      SameBelow(Horner(s, radix), Magnitude(value, radix), value as int);
    }
  }

  lemma SameBelow(x: nat, y: nat, value: int)
    requires x < 0x1_0000_0000_0000_0000 && y < 0x1_0000_0000_0000_0000
    requires (x - value) % 0x1_0000_0000_0000_0000 == 0 && (y - value) % 0x1_0000_0000_0000_0000 == 0
    ensures x == y
  {
  }

  function Backwards(s: Text): Text {
    seq(|s|, i requires 0 <= i < |s| => s[|s| - 1 - i])
  }

  lemma BackwardsSnoc(s: Text, c: CChar)
    ensures Backwards(s + [c]) == [c] + Backwards(s)
  {
  }

  /** The digits still to come and those in the buffer, read backwards, make up
      the whole numeral. */
  ghost predicate Splits(whole: nat, radix: nat, v: nat, done: Text)
    requires IsRadix(radix)
  {
    Numeral(whole, radix) == (if v == 0 && done != [] then [] else Numeral(v, radix)) + Backwards(done)
  }

  lemma SplitsStep(whole: nat, radix: nat, v: nat, done: Text)
    requires IsRadix(radix) && (v != 0 || done == []) && Splits(whole, radix, v, done)
    ensures v % radix < 36
    ensures Splits(whole, radix, v / radix, done + [DigitChar(v % radix)])
  {
    hide DigitChar;
    BackwardsSnoc(done, DigitChar(v % radix));
    if v < radix {
      Division.RemainderUnique(v, 0, v, radix);
    } else {
      QuotientSmaller(v, radix);
    }
  }

  /** A pending digit has a free cell waiting for it. */
  lemma BufferRoom(whole: nat, radix: nat, v: nat, done: Text)
    requires IsRadix(radix) && (v != 0 || done == []) && Splits(whole, radix, v, done)
    requires |Numeral(whole, radix)| <= 64
    ensures |done| < 64
  {
    NumeralCanonical(v, radix);
  }

  /** First loop: the digits of v, last one first. */
  method CollectDigits(tmp: array<CChar>, whole: uint64, radix: int) returns (tp: int)
    requires IsRadix(radix) && tmp.Length == 65
    modifies tmp
    ensures 0 < tp <= 64
    ensures Backwards(tmp[..tp]) == Numeral(whole as nat, radix)
  {
    hide Numeral, DigitChar;
    NumeralFits64(whole as nat, radix);
    var v := whole;
    tp := 0;
    assert tmp[..0] == [];
    while v != 0 || tp == 0
      invariant 0 <= tp <= 64
      invariant Splits(whole as nat, radix, v as nat, tmp[..tp])
      decreases v, 1 - tp
    {
      SplitsStep(whole as nat, radix, v as nat, tmp[..tp]);
      BufferRoom(whole as nat, radix, v as nat, tmp[..tp]);
      QuotientShrinks(v as nat, radix);
      var i := v as int % radix;
      v := (v as int / radix) as uint64;
      ghost var done := tmp[..tp];
      StoreDigit(tmp, tp, i);
      assert tmp[..tp + 1] == done + [DigitChar(i)];
      tp := tp + 1;
    }
  }

  method StoreDigit(tmp: array<CChar>, tp: int, i: int)
    requires 0 <= tp < tmp.Length && 0 <= i < 36
    modifies tmp
    ensures tmp[tp] == DigitChar(i)
    ensures tmp[..tp] == old(tmp[..tp]) && tmp[tp + 1..] == old(tmp[tp + 1..])
  {
    if i < 10 {
      tmp[tp] := i as char + '0';
    } else {
      tmp[tp] := i as char + 'a' - 10 as char;
    }
  }

  lemma QuotientShrinks(v: nat, radix: nat)
    requires IsRadix(radix)
    ensures v / radix <= v
    ensures v > 0 ==> v / radix < v
  {
    if v < radix {
      Division.RemainderUnique(v, 0, v, radix);
    } else {
      QuotientSmaller(v, radix);
    }
  }

  /** Second loop: the buffer copied out backwards from sp[start]. */
  method CopyBackwards(tmp: array<CChar>, count: int, sp: array<CChar>, start: int)
    requires 0 <= count <= tmp.Length && 0 <= start && start + count <= sp.Length && tmp != sp
    modifies sp
    ensures sp[..start + count] == old(sp[..start]) + Backwards(tmp[..count])
    ensures sp[start + count..] == old(sp[start + count..])
  {
    var tp, k := count, start;
    while tp > 0
      invariant 0 <= tp <= count && k + tp == start + count
      invariant forall i :: 0 <= i < start || start + count <= i < sp.Length ==> sp[i] == old(sp[i])
      invariant forall i :: start <= i < k ==> sp[i] == tmp[count - 1 - (i - start)]
      invariant tmp[..] == old(tmp[..])
    {
      tp := tp - 1;
      sp[k] := tmp[tp];
      k := k + 1;
    }
    assert sp[..start + count] == old(sp[..start]) + Backwards(tmp[..count]);
  }

  /** The buffer sp receives exactly the printed text, without a terminator; what
      lies behind it is untouched. */
  method Itoa(value: int64, sp: array<CChar>, radix: int) returns (len: int)
    requires IsRadix(radix)
    requires radix == 10 ==> value != -0x8000_0000_0000_0000
    requires |Printed(value, radix)| <= sp.Length
    modifies sp
    ensures len == |Printed(value, radix)|
    ensures sp[..len] == Printed(value, radix) && Denotes(sp[..len], value, radix)
    ensures sp[len..] == old(sp[len..])
  {
    hide Numeral, Denotes, Horner, IsCanonical;
    var tmp := new CChar[65];
    var v: uint64;
    var sign := radix == 10 && value < 0;
    if sign {
      v := (-value) as uint64;
    } else {
      v := (if value < 0 then value as int + 0x1_0000_0000_0000_0000 else value as int) as uint64;
    }
    var tp := CollectDigits(tmp, v, radix);
    len := tp;
    var k := 0;
    if sign {
      sp[k] := '-';
      k := k + 1;
      len := len + 1;
    }
    CopyBackwards(tmp, tp, sp, k);
    PrintedMeaning(value, radix);
  }
}
