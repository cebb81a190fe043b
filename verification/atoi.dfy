// Parsing a decimal integer: an optional sign and the longest run of digits.

module Atoi {
  import opened Numerals
  import opened Itoa

  // Character classes ---------------------------------------------------------

  /** A signed char widened to an unsigned 32-bit code. */
  function Widen(c: CChar): nat {
    if c as int < 128 then c as int else c as int + 0xFFFF_FF00
  }

  /** The range test is one unsigned 32-bit comparison after a wrapping subtraction. */
  predicate InAsciiRange(c: nat, start: nat, len: nat) {
    (c - start) % 0x1_0000_0000 < len
  }

  predicate IsDigit(c: CChar) {
    InAsciiRange(Widen(c), 0x30, 10)
  }

  lemma IsDigitMeaning(c: CChar)
    ensures IsDigit(c) <==> '0' <= c <= '9'
    ensures IsDigit(c) <==> DigitValue(c) < 10
    ensures IsDigit(c) ==> DigitValue(c) == c as int - '0' as int
  {
  }

  // What is parsed ------------------------------------------------------------

  predicate HasSign(s: Text) {
    s != [] && (s[0] == '+' || s[0] == '-')
  }

  function AfterSign(s: Text): Text {
    if HasSign(s) then s[1..] else s
  }

  /** The longest prefix of digits. */
  function DigitRun(s: Text): Text {
    if s != [] && IsDigit(s[0]) then [s[0]] + DigitRun(s[1..]) else []
  }

  function Parsed(s: Text): int {
    var magnitude: int := Horner(DigitRun(AfterSign(s)), 10);
    if s != [] && s[0] == '-' then -magnitude else magnitude
  }

  /** A plus sign changes nothing and a minus sign negates. */
  lemma SignMeaning(s: Text)
    requires !HasSign(s)
    ensures Parsed("+" + s) == Parsed(s) == Horner(DigitRun(s), 10) && Parsed("-" + s) == -Parsed(s)
  {
    hide DigitRun, Horner;
    assert AfterSign("+" + s) == s && AfterSign("-" + s) == s;
  }

  /** The run is a prefix of digits that cannot be extended. */
  lemma {:induction false} DigitRunMaximal(s: Text)
    ensures var run := DigitRun(s);
            && run <= s
            && (forall i :: 0 <= i < |run| ==> IsDigit(run[i]))
            && (|run| < |s| ==> !IsDigit(s[|run|]))
  {
    if s != [] && IsDigit(s[0]) {
      DigitRunMaximal(s[1..]);
      assert s == [s[0]] + s[1..];
    }
  }

  lemma {:induction false} RunUnique(s: Text, k: nat)
    requires k < |s| && !IsDigit(s[k])
    requires forall i :: 0 <= i < k ==> IsDigit(s[i])
    ensures DigitRun(s) == s[..k]
  {
    if k > 0 {
      RunUnique(s[1..], k - 1);
      assert s[..k] == [s[0]] + s[1..][..k - 1];
    }
  }

  lemma HornerEmpty(r: nat)
    ensures Horner([], r) == 0
  {
  }

  /** The terminated text s is parsed without signed overflow whenever its
      magnitude fits; the loop reads no further than the terminator. */
  method Atoi(s: Text) returns (result: int64)
    requires '\0' in s
    requires Horner(DigitRun(AfterSign(s)), 10) < 0x8000_0000_0000_0000
    ensures result as int == Parsed(s)
  {
    hide Horner, DigitRun, DigitValue, InAsciiRange;
    var value: int64 := 0;
    var sign: int64 := 1;
    var c := 0;
    if s[c] == '+' || s[c] == '-' {
      if s[c] == '-' {
        sign := -1;
      }
      c := c + 1;
    }
    ghost var start := c;
    ghost var rest := AfterSign(s);
    assert rest == s[start..];
    ghost var run := DigitRun(rest);
    DigitRunMaximal(rest);
    RunStopsEarly(rest);
    assert run[..0] == [] && Horner([], 10) == 0 by {
      HornerEmpty(10);
    }
    while IsDigit(s[c])
      invariant start <= c && c - start <= |run|
      invariant value as int == Horner(run[..c - start], 10)
      decreases |s| - c
    {
      ghost var k := c - start;
      assert s[c] == rest[k];
      assert k < |run| && run[k] == s[c];
      assert run[..k + 1] == run[..k] + [s[c]];
      HornerAppend(run[..k], s[c], 10);
      IsDigitMeaning(s[c]);
      HornerPrefix(run, k + 1, 10);
      value := value * 10;
      value := value + (s[c] as int - '0' as int) as int64;
      c := c + 1;
    }
    assert s[c] == rest[c - start];
    assert run[..|run|] == run;
    result := value * sign;
  }

  lemma RunStopsEarly(s: Text)
    requires '\0' in s
    ensures |DigitRun(s)| < |s|
  {
    DigitRunMaximal(s);
    if |DigitRun(s)| == |s| {
      assert DigitRun(s) == s;
      var i :| 0 <= i < |s| && s[i] == '\0';
      IsDigitMeaning(DigitRun(s)[i]);
    }
  }

  /** Parsing what was printed in radix 10, followed by any non-digit, gives the
      value back, and the parser's magnitude never overflows. */
  lemma RoundTrip(value: int64, next: CChar, tail: Text)
    requires value != -0x8000_0000_0000_0000 && !IsDigit(next)
    ensures var s := Printed(value, 10) + [next] + tail;
            && Parsed(s) == value as int
            && Horner(DigitRun(AfterSign(s)), 10) < 0x8000_0000_0000_0000
  {
    hide Numeral, Horner, DigitRun;
    var m := Magnitude(value, 10);
    var digits := Numeral(m, 10);
    var s := Printed(value, 10) + [next] + tail;
    NumeralCanonical(m, 10);
    NumeralValue(m, 10);
    forall i | 0 <= i < |digits|
      ensures IsDigit(digits[i])
    {
      IsDigitMeaning(digits[i]);
    }
    IsDigitMeaning(digits[0]);
    var rest := AfterSign(s);
    assert rest == digits + [next] + tail;
    RunUnique(rest, |digits|);
    assert rest[..|digits|] == digits;
  }
}
