// floor and fmod, which bring their argument into the range of an int by
// repeated steps of 32768 before a truncating cast; over exact reals.

module Reduction {

  /** A C cast to int: toward zero. */
  function Truncate(z: real): int {
    if z >= 0.0 then z.Floor else -((-z).Floor)
  }

  /** What the code's floor computes: the floor, except for negative numbers less
      than 1e-10 below an integer, where it is one too large. */
  ghost function CodeFloor(x: real): int {
    if x >= 0.0 || x - x.Floor as real <= 0.9999999999 then x.Floor else x.Floor + 1
  }

  lemma ShiftFloor(x: real, k: int)
    ensures (x + k as real).Floor == x.Floor + k
  {
  }

  lemma FloorBranches(x: real)
    ensures x > 0.0 ==> Truncate(x) == CodeFloor(x)
    ensures x <= 0.0 ==> Truncate(x - 0.9999999999) == CodeFloor(x)
  {
    if x <= 0.0 {
      var n, z := x.Floor, x - 0.9999999999;
      var f := x - n as real;
      if f <= 0.9999999999 {
        NegatedFloor(z, n);
      } else {
        NegatedFloor(z, n + 1);
      }
    }
  }

  lemma NegatedFloor(z: real, n: int)
    requires (n - 1) as real < z <= n as real
    ensures (-z).Floor == -n
  {
  }

  method Floor(x0: real) returns (r: real)
    ensures r == CodeFloor(x0) as real
  {
    var x, y := x0, 0.0;
    ghost var k := 0;
    while x >= 32768.0
      invariant y == (32768 * k) as real && x + y == x0
      invariant x0 >= 0.0 ==> x >= 0.0
      invariant x0 < 32768.0 ==> k == 0
      decreases x.Floor
    {
      y := y + 32768.0;
      x := x - 32768.0;
      k := k + 1;
    }
    while x <= -32768.0
      invariant y == (32768 * k) as real && x + y == x0
      invariant x0 >= 0.0 ==> x >= 0.0
      invariant x0 < 0.0 ==> x <= 0.0
      decreases (-x).Floor
    {
      y := y - 32768.0;
      x := x + 32768.0;
      k := k - 1;
    }
    var ix: int;
    if x > 0.0 {
      ix := Truncate(x);
    } else {
      ix := Truncate(x - 0.9999999999);
    }
    FloorBranches(x);
    ShiftFloor(x, 32768 * k);
    r := y + ix as real;
  }

  /** The largest integer not greater than x comes out exactly for x >= 0 and for
      negative x that are integers or at least 1e-10 below the next one. */
  lemma FloorCorrectIff(x: real)
    ensures CodeFloor(x) == x.Floor <==> x >= 0.0 || x == x.Floor as real || x <= (x.Floor + 1) as real - 0.0000000001
    ensures x.Floor <= CodeFloor(x) <= x.Floor + 1
  {
  }

  lemma FloorWrongExample()
    ensures CodeFloor(-0.00000000001) == 0 && (-0.00000000001 as real).Floor == -1
  {
  }

  lemma TruncateShift(z: real, k: int)
    requires (z >= 0.0 && k >= 0) || (z <= 0.0 && k <= 0)
    ensures Truncate(z + k as real) == Truncate(z) + k
  {
    ShiftFloor(z, k);
    ShiftFloor(-z, -k);
    assert -z + (-k) as real == -(z + k as real);
  }

  /** x minus its integral multiple of y. */
  ghost function Remainder(x: real, y: real): real
    requires y != 0.0
  {
    x - (Truncate(x / y) as real) * y
  }

  method Fmod(x: real, y: real) returns (r: real)
    requires y != 0.0
    ensures r == Remainder(x, y)
  {
    var z, zint := x / y, 0.0;
    ghost var z0, k := z, 0;
    while z > 32768.0
      invariant zint == (32768 * k) as real && z + zint == z0 && k >= 0
      invariant k > 0 ==> z >= 0.0
      decreases z.Floor
    {
      zint := zint + 32768.0;
      z := z - 32768.0;
      k := k + 1;
    }
    while z < -32768.0
      invariant zint == (32768 * k) as real && z + zint == z0
      invariant k > 0 ==> z >= 0.0
      invariant k < 0 ==> z <= 0.0
      decreases (-z).Floor
    {
      zint := zint - 32768.0;
      z := z + 32768.0;
      k := k - 1;
    }
    var i := Truncate(z);
    TruncateShift(z, 32768 * k);
    zint := zint + i as real;
    r := x - zint * y;
  }

  /** The remainder of section 7.12.10.1 of ISO/IEC 9899:2011: x minus an integral
      multiple of y, smaller than y in magnitude and of the sign of x. */
  lemma FmodMeaning(x: real, y: real)
    requires y != 0.0
    ensures y > 0.0 ==> -y < Remainder(x, y) < y
    ensures y < 0.0 ==> y < Remainder(x, y) < -y
    ensures x >= 0.0 ==> Remainder(x, y) >= 0.0
    ensures x <= 0.0 ==> Remainder(x, y) <= 0.0
    ensures IsMultiple(x - Remainder(x, y), y)
  {
    assert x - Remainder(x, y) == Multiple(Truncate(x / y), y);
    hide Remainder, Fraction, Multiple, Truncate;
    RemainderIsFraction(x, y);
    FractionBounds(x / y);
    QuotientSigns(x, y);
    ScaleBounds(Fraction(x / y), y, Remainder(x, y));
  }

  ghost function Fraction(z: real): real {
    z - Truncate(z) as real
  }

  lemma FractionBounds(z: real)
    ensures z >= 0.0 ==> 0.0 <= Fraction(z) < 1.0
    ensures z <= 0.0 ==> -1.0 < Fraction(z) <= 0.0
  {
  }

  lemma RemainderIsFraction(x: real, y: real)
    requires y != 0.0
    ensures Remainder(x, y) == Fraction(x / y) * y
  {
    var z := x / y;
    var t := Truncate(z) as real;
    assert z * y == x;
    assert (z - t) * y == z * y - t * y;
  }

  lemma ScaleBounds(d: real, y: real, r: real)
    requires -1.0 < d < 1.0 && y != 0.0 && r == d * y
    ensures y > 0.0 ==> -y < r < y
    ensures y < 0.0 ==> y < r < -y
    ensures d >= 0.0 && y > 0.0 ==> r >= 0.0
    ensures d >= 0.0 && y < 0.0 ==> r <= 0.0
    ensures d <= 0.0 && y > 0.0 ==> r <= 0.0
    ensures d <= 0.0 && y < 0.0 ==> r >= 0.0
  {
  }

  lemma QuotientSigns(x: real, y: real)
    requires y != 0.0
    ensures x / y > 0.0 <==> (x > 0.0 && y > 0.0) || (x < 0.0 && y < 0.0)
    ensures x / y < 0.0 <==> (x > 0.0 && y < 0.0) || (x < 0.0 && y > 0.0)
  {
    var z := x / y;
    assert z * y == x;
  }

  lemma QuotientIs(a: real, y: real, q: real)
    requires y != 0.0 && a == q * y
    ensures a / y == q
  {
    assert (a / y) * y == a;
    assert (a / y - q) * y == (a / y) * y - q * y;
  }

  lemma QuotientBelowOne(r: real, y: real)
    requires y != 0.0
    requires if y > 0.0 then -y < r < y else y < r < -y
    ensures -1.0 < r / y < 1.0
  {
    var d := r / y;
    assert d * y == r;
    assert d >= 1.0 ==> if y > 0.0 then d * y >= y else d * y <= y;
    assert d <= -1.0 ==> if y > 0.0 then d * y <= -y else d * y >= -y;
  }

  lemma ShiftTruncate(d: real, n: int, z: real)
    requires -1.0 < d < 1.0 && z == n as real + d
    requires (z > 0.0 ==> d >= 0.0) && (z < 0.0 ==> d <= 0.0) && (z == 0.0 ==> d == 0.0)
    ensures Truncate(z) == n
  {
    if z > 0.0 {
      ShiftFloor(d, n);
    } else if z < 0.0 {
      ShiftFloor(-d, -n);
      assert -d + (-n) as real == -z;
    }
  }

  lemma QuotientSum(x: real, y: real, n: int, r: real)
    requires y != 0.0 && x == n as real * y + r
    ensures x / y == n as real + r / y
  {
    var d := r / y;
    assert (n as real + d) * y == n as real * y + d * y;
    assert d * y == r;
    QuotientIs(x, y, n as real + d);
  }

  /** The multiple and the remainder are the only ones with those bounds. */
  lemma FmodUnique(x: real, y: real, n: int, r: real)
    requires y != 0.0 && x == n as real * y + r
    requires if y > 0.0 then -y < r < y else y < r < -y
    requires (x >= 0.0 ==> r >= 0.0) && (x <= 0.0 ==> r <= 0.0)
    ensures n == Truncate(x / y) && r == Remainder(x, y)
  {
    assert Remainder(x, y) == x - (Truncate(x / y) as real) * y;
    hide Truncate, Remainder;
    QuotientSum(x, y, n, r);
    QuotientBelowOne(r, y);
    QuotientSigns(x, y);
    QuotientSigns(r, y);
    ShiftTruncate(r / y, n, x / y);
  }

  ghost function Multiple(n: int, y: real): real {
    n as real * y
  }

  ghost predicate IsMultiple(x: real, y: real) {
    exists n :: x == Multiple(n, y)
  }

  /** When the remainder lies between 0 and y, as the code's comment has it: exactly for a
      positive y and an x that is not negative or an integral multiple of y. */
  lemma CommentHoldsIff(x: real, y: real)
    requires y != 0.0
    ensures 0.0 <= Remainder(x, y) < y <==> y > 0.0 && (x >= 0.0 || IsMultiple(x, y))
  {
    FmodMeaning(x, y);
    assert x - Remainder(x, y) == Multiple(Truncate(x / y), y);
    hide Remainder, Truncate;
    if n :| x == Multiple(n, y) {
      FmodUnique(x, y, n, 0.0);
    }
  }

  /** -1 by 2 leaves -1. */
  lemma CommentWrongExample()
    ensures Remainder(-1.0, 2.0) == -1.0
  {
  }
}
