// Powers modulo m: multiplicative order, and Lucas's criterion for an element
// whose powers run through every non-zero residue.

module ModularPowers {
  import opened Division

  function Pow(b: nat, e: nat): nat {
    if e == 0 then 1 else b * Pow(b, e - 1)
  }

  function Product(fs: seq<nat>): nat {
    if fs == [] then 1 else fs[0] * Product(fs[1..])
  }

  ghost predicate IsPrime(q: nat) {
    2 <= q && forall k :: 2 <= k < q ==> q % k != 0
  }

  /** a^n is congruent to 1 modulo m. */
  ghost predicate IsOne(a: nat, n: nat, m: nat)
    requires m > 1
  {
    Pow(a, n) % m == 1
  }

  // Powers ------------------------------------------------------------------

  lemma {:induction false} PowAdd(b: nat, i: nat, j: nat)
    ensures Pow(b, i + j) == Pow(b, i) * Pow(b, j)
  {
    if i > 0 {
      PowAdd(b, i - 1, j);
      MulAssoc(b, Pow(b, i - 1), Pow(b, j));
    }
  }

  // Multiplicative order ------------------------------------------------------

  lemma OneSubtract(a: nat, n: nat, k: nat, m: nat)
    requires m > 1 && k <= n && IsOne(a, n, m) && IsOne(a, k, m)
    ensures IsOne(a, n - k, m)
  {
    PowAdd(a, k, n - k);
    MulMod(Pow(a, k), Pow(a, n - k), m);
  }

  lemma {:induction false} OneMultiple(a: nat, d: nat, k: nat, m: nat)
    requires m > 1 && IsOne(a, d, m)
    ensures IsOne(a, d * k, m)
  {
    if k == 0 {
      assert d * k == 0;
    } else {
      OneMultiple(a, d, k - 1, m);
      assert d * k == d + d * (k - 1);
      PowAdd(a, d, d * (k - 1));
      MulMod(Pow(a, d), Pow(a, d * (k - 1)), m);
    }
  }

  ghost predicate IsOrder(a: nat, d: nat, m: nat)
    requires m > 1
  {
    0 < d && IsOne(a, d, m) && forall k :: 0 < k < d ==> !IsOne(a, k, m)
  }

  lemma {:induction false} OrderExists(a: nat, n: nat, m: nat) returns (d: nat)
    requires m > 1 && 0 < n && IsOne(a, n, m)
    ensures IsOrder(a, d, m) && d <= n
  {
    if k :| 0 < k < n && IsOne(a, k, m) {
      d := OrderExists(a, k, m);
    } else {
      d := n;
    }
  }

  lemma {:induction false} OrderDivides(a: nat, d: nat, n: nat, m: nat)
    requires m > 1 && IsOrder(a, d, m) && IsOne(a, n, m)
    ensures n % d == 0
  {
    if d <= n {
      OneSubtract(a, n, d, m);
      OrderDivides(a, d, n - d, m);
      RemainderUnique(n, (n - d) / d + 1, 0, d);
    }
  }

  // Primes --------------------------------------------------------------------

  /** Euclid's algorithm with Bezout's coefficients. */
  lemma {:induction false} Bezout(x: nat, y: nat) returns (g: nat, u: int, v: int)
    requires x > 0 || y > 0
    ensures g > 0 && g == u * x + v * y
    ensures x % g == 0 && y % g == 0
    decreases y
  {
    if y == 0 {
      g, u, v := x, 1, 0;
      RemainderUnique(x, 1, 0, x);
    } else {
      var u', v';
      g, u', v' := Bezout(y, x % y);
      u, v := v', u' - (x / y) * v';
      var q := x / y;
      assert u' * y + v' * (x - y * q) == v' * x + (u' - q * v') * y;
      assert x == g * ((y / g) * q + (x % y) / g) by {
        assert x == y * q + x % y && y == g * (y / g) && x % y == g * ((x % y) / g);
        assert (g * (y / g)) * q == g * ((y / g) * q);
      }
      MultipleHasNoRemainder((y / g) * q + (x % y) / g, g);
    }
  }

  /** Euclid's lemma: a prime that does not divide m is invisible to m. */
  lemma PrimeSplits(m: nat, q: nat, r: nat)
    requires m > 0 && IsPrime(q) && q * r % m == 0
    ensures m % q == 0 || r % m == 0
  {
    var g, u, v := Bezout(m, q);
    if g == 1 {
      var t := q * r / m;
      assert r == m * (u * r + v * t) by {
        assert q * r == m * t;
        assert r == (u * m + v * q) * r == m * (u * r) + v * (q * r);
        assert v * (m * t) == m * (v * t);
      }
      MultipleHasNoRemainder(u * r + v * t, m);
    } else if g > q {
      RemainderUnique(q, 0, q, g);
    }
  }

  lemma {:induction false} SharesPrime(m: nat, fs: seq<nat>) returns (q: nat)
    requires m > 1 && Product(fs) % m == 0
    requires forall f :: f in fs ==> IsPrime(f)
    ensures q in fs && IsPrime(q) && m % q == 0
  {
    if fs == [] {
      RemainderUnique(1, 0, 1, m);
      assert false;
    }
    assert IsPrime(fs[0]);
    if m % fs[0] == 0 {
      q := fs[0];
    } else {
      PrimeSplits(m, fs[0], Product(fs[1..]));
      q := SharesPrime(m, fs[1..]);
    }
  }

  // Lucas's criterion ---------------------------------------------------------

  ghost predicate LucasWitness(a: nat, m: nat, fs: seq<nat>) {
    && m > 1 && Product(fs) == m - 1
    && (forall q :: q in fs ==> IsPrime(q))
    && IsOne(a, m - 1, m)
    && (forall q :: q in fs && q > 0 ==> !IsOne(a, (m - 1) / q, m))
  }

  /** A witness has order exactly m - 1. */
  lemma LucasOrder(a: nat, m: nat, fs: seq<nat>)
    requires LucasWitness(a, m, fs) && m > 2
    ensures IsOrder(a, m - 1, m)
  {
    var d := OrderExists(a, m - 1, m);
    OrderDivides(a, d, m - 1, m);
    var k := (m - 1) / d;
    assert m - 1 == d * k;
    assert k <= 0 ==> d * k <= 0;
    if k > 1 {
      OrderTooSmall(a, m, fs, d, k);
    }
    assert k == 1;
  }

  /** No proper divisor of m - 1 can be the order of a witness. */
  lemma OrderTooSmall(a: nat, m: nat, fs: seq<nat>, d: nat, k: nat)
    requires LucasWitness(a, m, fs) && IsOne(a, d, m) && m - 1 == d * k
    ensures k <= 1
  {
    if k > 1 {
      assert Product(fs) % k == 0 by {
        MultipleHasNoRemainder(d, k);
        assert d * k == k * d;
      }
      var q := SharesPrime(k, fs);
      DivideFactor(d, k, q);
      OneMultiple(a, d, k / q, m);
    }
  }

  lemma DivideFactor(d: nat, k: nat, q: nat)
    requires q > 0 && k % q == 0
    ensures d * k / q == d * (k / q)
  {
    var j := k / q;
    assert d * k == q * (d * j) by {
      assert k == q * j;
      assert d * (q * j) == q * (d * j);
    }
    RemainderUnique(d * k, d * j, 0, q);
  }

  /** Cancelling a power of an element of finite order. */
  lemma CancelPower(a: nat, i: nat, x: nat, y: nat, n: nat, m: nat)
    requires m > 1 && i <= n && IsOne(a, n, m)
    requires Pow(a, i) * x % m == Pow(a, i) * y % m
    ensures x % m == y % m
  {
    var inv := Pow(a, n - i);
    PowAdd(a, n - i, i);
    Multiply(inv, Pow(a, i), x, n, a, m);
    Multiply(inv, Pow(a, i), y, n, a, m);
    MulModRight(inv, Pow(a, i) * x, m);
    MulModRight(inv, Pow(a, i) * y, m);
  }

  lemma Multiply(inv: nat, p: nat, x: nat, n: nat, a: nat, m: nat)
    requires m > 1 && inv * p == Pow(a, n) && IsOne(a, n, m)
    ensures inv * (p * x) % m == x % m
  {
    assert inv * (p * x) == (inv * p) * x;
    MulMod(inv * p, x, m);
  }

  /** Equal residues of two powers differ by an exponent that yields one. */
  lemma EqualPowers(a: nat, i: nat, j: nat, n: nat, m: nat)
    requires m > 1 && IsOne(a, n, m) && i <= j && i <= n
    requires Pow(a, i) % m == Pow(a, j) % m
    ensures IsOne(a, j - i, m)
  {
    var p, r := Pow(a, i), Pow(a, j - i);
    assert Pow(a, j) == p * r by {
      PowAdd(a, i, j - i);
    }
    assert p == p * 1;
    CancelPower(a, i, 1, r, n, m);
    assert 1 % m == 1 by {
      RemainderUnique(1, 0, 1, m);
    }
  }

  /** Below the order, distinct exponents give distinct residues. */
  lemma PowersDistinct(a: nat, i: nat, j: nat, n: nat, m: nat)
    requires m > 1 && IsOrder(a, n, m) && i < j < n
    ensures Pow(a, i) % m != Pow(a, j) % m
  {
    if Pow(a, i) % m == Pow(a, j) % m {
      EqualPowers(a, i, j, n, m);
    }
  }

  lemma PowerNotZero(a: nat, i: nat, n: nat, m: nat)
    requires m > 1 && i <= n && IsOne(a, n, m)
    ensures Pow(a, i) % m != 0
  {
    if Pow(a, i) % m == 0 {
      PowAdd(a, i, n - i);
      MulMod(Pow(a, i), Pow(a, n - i), m);
    }
  }

  // Pigeonhole ----------------------------------------------------------------

  ghost function Interval(n: nat): (s: set<nat>)
    ensures forall i :: i in s <==> 1 <= i <= n
    ensures |s| == n
  {
    if n == 0 then {} else Interval(n - 1) + {n}
  }

  ghost function Residues(a: nat, k: nat, m: nat): set<nat>
    requires m > 0
  {
    if k == 0 then {} else Residues(a, k - 1, m) + {Pow(a, k - 1) % m}
  }

  lemma {:induction false} ResiduesMembers(a: nat, k: nat, m: nat, r: nat)
    requires m > 0 && r in Residues(a, k, m)
    ensures exists i :: 0 <= i < k && Pow(a, i) % m == r
  {
    if r != Pow(a, k - 1) % m {
      ResiduesMembers(a, k - 1, m, r);
    }
  }

  lemma {:induction false} ResiduesCount(a: nat, k: nat, n: nat, m: nat)
    requires m > 1 && IsOrder(a, n, m) && k <= n
    ensures |Residues(a, k, m)| == k && Residues(a, k, m) <= Interval(m - 1)
  {
    if k > 0 {
      ResiduesCount(a, k - 1, n, m);
      FreshResidue(a, k - 1, n, m);
      PowerNotZero(a, k - 1, n, m);
    }
  }

  lemma FreshResidue(a: nat, k: nat, n: nat, m: nat)
    requires m > 1 && IsOrder(a, n, m) && k < n
    ensures Pow(a, k) % m !in Residues(a, k, m)
  {
    var r := Pow(a, k) % m;
    if r in Residues(a, k, m) {
      ResiduesMembers(a, k, m, r);
      var i :| 0 <= i < k && Pow(a, i) % m == r;
      PowersDistinct(a, i, k, n, m);
    }
  }

  lemma {:induction false} SubsetOfEqualSize<T>(s: set<T>, t: set<T>)
    requires s <= t && |s| == |t|
    ensures s == t
  {
    if x :| x in t && x !in s {
      SubsetSize(s, t - {x});
      assert false;
    }
  }

  lemma {:induction false} SubsetSize<T>(s: set<T>, t: set<T>)
    requires s <= t
    ensures |s| <= |t|
  {
    if s != {} {
      var x :| x in s;
      SubsetSize(s - {x}, t - {x});
    }
  }

  /** An element of order m - 1 generates every non-zero residue. */
  lemma EveryResidueIsPower(a: nat, m: nat, r: nat)
    requires m > 1 && IsOrder(a, m - 1, m) && 1 <= r < m
    ensures exists i :: 0 <= i < m - 1 && Pow(a, i) % m == r
  {
    ResiduesCount(a, m - 1, m - 1, m);
    SubsetOfEqualSize(Residues(a, m - 1, m), Interval(m - 1));
    ResiduesMembers(a, m - 1, m, r);
  }

  /** A modulus whose non-zero residues are all powers of one number is prime. */
  lemma GeneratedIsPrime(a: nat, m: nat)
    requires m > 1 && IsOrder(a, m - 1, m)
    ensures IsPrime(m)
  {
    forall k | 2 <= k < m
      ensures m % k != 0
    {
      NoProperDivisor(a, m, k, m / k);
    }
  }

  lemma NoProperDivisor(a: nat, m: nat, k: nat, j: nat)
    requires 2 <= k < m && IsOrder(a, m - 1, m)
    ensures m != k * j
  {
    hide Pow;
    EveryResidueIsPower(a, m, k);
    var i :| 0 <= i < m - 1 && Pow(a, i) % m == k;
    if m == k * j {
      ProperCofactor(k, j, m);
      ZeroProduct(Pow(a, i), k, j, m);
      CancelPower(a, i, j, 0, m - 1, m);
    }
  }

  lemma ZeroProduct(p: nat, k: nat, j: nat, m: nat)
    requires m > 1 && p % m == k && m == k * j
    ensures p * j % m == p * 0 % m
  {
    MulMod(p, j, m);
  }

  lemma ProperCofactor(k: nat, j: nat, m: nat)
    requires k >= 2 && m == k * j && m > 1
    ensures j % m != 0 % m
  {
    assert m == j + (k - 1) * j;
    RemainderUnique(j, 0, j, m);
    RemainderUnique(0, 0, 0, m);
  }
}
