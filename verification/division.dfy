// Quotients and remainders of Euclidean division.

module Division {

  lemma RemainderUnique(x: int, q: int, r: int, m: int)
    requires m > 0 && 0 <= r < m && x == m * q + r
    ensures x % m == r && x / m == q
  {
    var d := x / m - q;
    assert m * d == r - x % m;
    assert d >= 1 ==> m * d >= m;
    assert d <= -1 ==> m * d <= -m;
  }

  lemma MultipleHasNoRemainder(k: int, m: int)
    requires m > 0
    ensures m * k % m == 0
  {
    RemainderUnique(m * k, k, 0, m);
  }

  lemma MulMod(x: nat, y: nat, m: nat)
    requires m > 0
    ensures (x % m) * y % m == x * y % m
  {
    var q, r := x / m, x % m;
    var q', r' := r * y / m, r * y % m;
    assert x * y == m * (q * y + q') + r' by {
      assert x * y == (m * q + r) * y == m * (q * y) + r * y;
    }
    RemainderUnique(x * y, q * y + q', r', m);
  }

  lemma MulModRight(x: nat, y: nat, m: nat)
    requires m > 0
    ensures x * (y % m) % m == x * y % m
  {
    MulMod(y, x, m);
    assert x * y == y * x && x * (y % m) == (y % m) * x;
  }

  lemma MulAssoc(x: nat, y: nat, z: nat)
    ensures x * (y * z) == (x * y) * z
  {
  }

  /** Dividing by an even divisor, in two steps. */
  lemma HalveThenDivide(x: nat, p: nat)
    requires p > 0
    ensures x % (2 * p) == 2 * ((x / 2) % p) + x % 2
    ensures x / (2 * p) == (x / 2) / p
  {
    var q, r := (x / 2) / p, (x / 2) % p;
    assert x / 2 == p * q + r;
    assert (2 * p) * q == 2 * (p * q);
    RemainderUnique(x, q, 2 * r + x % 2, 2 * p);
  }
}
