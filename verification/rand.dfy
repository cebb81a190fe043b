// The C library's pseudo-random generator: Schrage's overflow-free form of the
// Park-Miller recurrence, behind rand, srand and rand_r.

module Rand {
  import opened Division
  import opened ModularPowers
  import opened ParkMiller

  newtype int32 = x: int | -0x8000_0000 <= x < 0x8000_0000
  newtype uint32 = x: int | 0 <= x < 0x1_0000_0000

  /** The inverse of 16807 modulo 2^31 - 1. */
  const INVERSE: nat := 1407677000

  ghost predicate IsState(x: nat) {
    1 <= x <= 0x7fff_fffe
  }

  // The simple recurrence -----------------------------------------------------

  ghost function Step(x: nat): nat {
    MULTIPLIER * x % MODULUS
  }

  ghost function Iterate(x: nat, n: nat): nat {
    if n == 0 then x else Step(Iterate(x, n - 1))
  }

  /** The state srand installs. */
  ghost function Seeded(seed: nat): nat {
    seed % 0x7fff_fffe + 1
  }

  /** That state less one is the seed modulo the number of states. */
  ghost predicate IsSeeding(seed: nat, x: nat) {
    1 <= x <= 0x7fff_fffe && (seed - (x - 1)) % 0x7fff_fffe == 0
  }

  lemma SeededMeaning(seed: nat)
    ensures IsSeeding(seed, Seeded(seed))
    ensures seed < 0x7fff_fffe ==> Seeded(seed) == seed + 1
  {
    assert seed - (Seeded(seed) - 1) == 0x7fff_fffe * (seed / 0x7fff_fffe);
    MultipleHasNoRemainder(seed / 0x7fff_fffe, 0x7fff_fffe);
  }

  lemma SeedingUnique(seed: nat, x: nat)
    requires IsSeeding(seed, x)
    ensures x == Seeded(seed)
  {
    RemainderUnique(seed, (seed - (x - 1)) / 0x7fff_fffe, x - 1, 0x7fff_fffe);
  }

  /** Multiplying by the inverse undoes a step. */
  lemma StepInverse(x: nat)
    requires x < MODULUS
    ensures INVERSE * Step(x) % MODULUS == x
  {
    MulModRight(INVERSE, MULTIPLIER * x, MODULUS);
    assert INVERSE * (MULTIPLIER * x) == (INVERSE * MULTIPLIER) * x;
    MulMod(INVERSE * MULTIPLIER, x, MODULUS);
    RemainderUnique(x, 0, x, MODULUS);
  }

  /** The step is a permutation of the states: it stays among them and loses
      nothing. */
  lemma StepPermutes(x: nat, y: nat)
    requires IsState(x) && IsState(y)
    ensures IsState(Step(x))
    ensures Step(x) == Step(y) ==> x == y
    ensures exists w :: IsState(w) && Step(w) == x
  {
    StepInverse(x);
    StepInverse(y);
    StepInverse(0);
    var w := INVERSE * x % MODULUS;
    MulModRight(MULTIPLIER, INVERSE * x, MODULUS);
    assert MULTIPLIER * (INVERSE * x) == (INVERSE * MULTIPLIER) * x;
    MulMod(INVERSE * MULTIPLIER, x, MODULUS);
    RemainderUnique(x, 0, x, MODULUS);
    assert Step(w) == x;
  }

  lemma {:induction false} IterateStaysState(x: nat, n: nat)
    requires IsState(x)
    ensures IsState(Iterate(x, n))
  {
    if n > 0 {
      IterateStaysState(x, n - 1);
      StepPermutes(Iterate(x, n - 1), x);
    }
  }

  /** Every run of the recurrence has a closed form. */
  lemma {:induction false} IterateClosedForm(x: nat, n: nat)
    requires x < MODULUS
    ensures Iterate(x, n) == Pow(MULTIPLIER, n) * x % MODULUS
  {
    if n == 0 {
      RemainderUnique(x, 0, x, MODULUS);
    } else {
      IterateClosedForm(x, n - 1);
      MulModRight(MULTIPLIER, Pow(MULTIPLIER, n - 1) * x, MODULUS);
      MulAssoc(MULTIPLIER, Pow(MULTIPLIER, n - 1), x);
    }
  }

  // Whole streams -------------------------------------------------------------

  /** A stream started at a power of the multiplier walks through the powers. */
  lemma IterateFromPower(k: nat, n: nat)
    ensures Iterate(Residue(k), n) == Residue(n + k)
  {
    IterateClosedForm(Residue(k), n);
    PowAdd(MULTIPLIER, n, k);
    MulModRight(Pow(MULTIPLIER, n), Pow(MULTIPLIER, k), MODULUS);
  }

  /** Every state returns after exactly 2^31 - 2 steps and no sooner. */
  lemma FullPeriod(x: nat, n: nat)
    requires IsState(x)
    ensures Iterate(x, 0x7fff_fffe) == x
    ensures 0 < n < 0x7fff_fffe ==> Iterate(x, n) != x
  {
    MultiplierOrder();
    EveryResidueIsPower(MULTIPLIER, MODULUS, x);
    var k :| 0 <= k < MODULUS - 1 && Pow(MULTIPLIER, k) % MODULUS == x;
    assert x == Residue(k);
    ReturnsAtOrder(x, k);
    if 0 < n < 0x7fff_fffe && Iterate(x, n) == x {
      IterateFromPower(k, n);
      EqualPowers(MULTIPLIER, k, n + k, MODULUS - 1, MODULUS);
    }
  }

  lemma ReturnsAtOrder(x: nat, k: nat)
    requires x == Residue(k) && IsOne(MULTIPLIER, MODULUS - 1, MODULUS)
    ensures Iterate(x, MODULUS - 1) == x
  {
    hide Iterate;
    IterateFromPower(k, MODULUS - 1);
    hide Pow;
    AddExponents(MODULUS - 1, k);
    RemainderUnique(x, 0, x, MODULUS);
  }

  /** Within one period a stream visits every state, each exactly once. */
  lemma VisitsEveryState(x: nat, y: nat)
    requires IsState(x) && IsState(y)
    ensures exists n :: 0 <= n < 0x7fff_fffe && Iterate(x, n) == y
    ensures forall i, j :: 0 <= i < j < 0x7fff_fffe && Iterate(x, i) == y ==> Iterate(x, j) != y
  {
    VisitsSomewhere(x, y);
    forall i, j | 0 <= i < j < 0x7fff_fffe && Iterate(x, i) == y
      ensures Iterate(x, j) != y
    {
      IterateAdd(x, i, j - i);
      FullPeriod(y, j - i);
    }
  }

  lemma VisitsSomewhere(x: nat, y: nat)
    requires IsState(x) && IsState(y)
    ensures exists n :: 0 <= n < 0x7fff_fffe && Iterate(x, n) == y
  {
    MultiplierOrder();
    EveryResidueIsPower(MULTIPLIER, MODULUS, x);
    EveryResidueIsPower(MULTIPLIER, MODULUS, y);
    var k :| 0 <= k < MODULUS - 1 && Pow(MULTIPLIER, k) % MODULUS == x;
    var j :| 0 <= j < MODULUS - 1 && Pow(MULTIPLIER, j) % MODULUS == y;
    assert x == Residue(k) && y == Residue(j);
    if k <= j {
      IterateFromPower(k, j - k);
      assert Iterate(x, j - k) == y;
    } else {
      var n := j + (MODULUS - 1) - k;
      IterateFromPower(k, n);
      WrapExponent(j);
      assert Iterate(x, n) == y;
    }
  }

  lemma WrapExponent(j: nat)
    requires IsOne(MULTIPLIER, MODULUS - 1, MODULUS)
    ensures Residue(j + (MODULUS - 1)) == Residue(j)
  {
    hide Pow;
    AddExponents(j, MODULUS - 1);
    RemainderUnique(Residue(j), 0, Residue(j), MODULUS);
  }

  lemma {:induction false} IterateAdd(x: nat, i: nat, n: nat)
    ensures Iterate(x, i + n) == Iterate(Iterate(x, i), n)
  {
    if n > 0 {
      IterateAdd(x, i, n - 1);
      assert i + n - 1 == i + (n - 1);
    }
  }

  /** Two seeds give the same stream exactly if they differ by a multiple of 2^31 - 2; and if
      they do not, no two values at the same place agree. */
  lemma StreamsAgreeIff(s: nat, t: nat, n: nat)
    ensures Iterate(Seeded(s), n) == Iterate(Seeded(t), n) <==> (s - t) % 0x7fff_fffe == 0
  {
    SameSeedingIff(s, t);
    SeededMeaning(s);
    SeededMeaning(t);
    hide Seeded;
    if Iterate(Seeded(s), n) == Iterate(Seeded(t), n) {
      IterateInjective(Seeded(s), Seeded(t), n);
    }
  }

  lemma SameSeedingIff(s: nat, t: nat)
    ensures Seeded(s) == Seeded(t) <==> (s - t) % 0x7fff_fffe == 0
  {
    var m := 0x7fff_fffe;
    assert s - t == m * (s / m - t / m) + (s % m - t % m);
    if s % m == t % m {
      MultipleHasNoRemainder(s / m - t / m, m);
    } else if s % m > t % m {
      RemainderUnique(s - t, s / m - t / m, s % m - t % m, m);
    } else {
      RemainderUnique(s - t, s / m - t / m - 1, s % m - t % m + m, m);
    }
  }

  lemma {:induction false} IterateInjective(x: nat, y: nat, n: nat)
    requires IsState(x) && IsState(y) && Iterate(x, n) == Iterate(y, n)
    ensures x == y
  {
    if n > 0 {
      IterateStaysState(x, n - 1);
      IterateStaysState(y, n - 1);
      StepPermutes(Iterate(x, n - 1), Iterate(y, n - 1));
      IterateInjective(x, y, n - 1);
    }
  }

  // The code ------------------------------------------------------------------

  /** A word of memory, passed by address. */
  class Word {
    var value: uint32

    constructor (v: uint32)
      ensures value == v
    {
      value := v;
    }
  }

  /** Schrage's decomposition: (2^31 - 1) = 127773 * 16807 + 2836. */
  lemma Schrage(v: nat, hi: nat, lo: nat)
    requires IsState(v) && hi == v / 127773 && lo == v % 127773
    ensures hi <= 16807
    ensures var x := 16807 * lo - 2836 * hi;
            Step(v) == if x < 0 then x + 0x7fff_ffff else x
  {
    var x := 16807 * lo - 2836 * hi;
    assert 16807 * v == MODULUS * hi + x;
    if x < 0 {
      RemainderUnique(16807 * v, hi - 1, x + MODULUS, MODULUS);
    } else {
      RemainderUnique(16807 * v, hi, x, MODULUS);
    }
  }

  /** All arithmetic below is in 32-bit types, so no intermediate value overflows. */
  method DoRand(ctx: Word) returns (r: int32)
    requires IsState(ctx.value as nat)
    modifies ctx
    ensures ctx.value as nat == Step(old(ctx.value) as nat)
    ensures IsState(ctx.value as nat)
    ensures r as int == ctx.value as int - 1
  {
    Schrage(ctx.value as nat, ctx.value as nat / 127773, ctx.value as nat % 127773);
    StepPermutes(ctx.value as nat, ctx.value as nat);
    var hi := (ctx.value / 127773) as int32;
    var lo := (ctx.value % 127773) as int32;
    var x: int32 := 16807 * lo - 2836 * hi;
    if x < 0 {
      x := x + 0x7fff_ffff;
    }
    ctx.value := x as uint32;
    r := x - 1;
  }

  /** The caller's word after one rand_r. */
  ghost function RandRNext(c: nat): nat {
    StepPermutes(Seeded(c), Seeded(c));
    Step(Seeded(c)) - 1
  }

  ghost function RandRIterate(c: nat, n: nat): nat {
    if n == 0 then c else RandRNext(RandRIterate(c, n - 1))
  }

  method RandR(ctx: Word) returns (r: int32, ghost x: nat)
    modifies ctx
    ensures IsSeeding(old(ctx.value) as nat, x) && ctx.value as int == 16807 * x % 0x7fff_ffff - 1
    ensures ctx.value as nat == RandRNext(old(ctx.value) as nat)
    ensures r as int == ctx.value as int
  {
    var val := new Word(ctx.value % 0x7fff_fffe + 1);
    x := val.value as nat;
    SeededMeaning(ctx.value as nat);
    r := DoRand(val);
    ctx.value := val.value - 1;
  }

  /** After n >= 1 calls, rand_r's word is one less than the state that srand with
      the same seed and n calls of rand reach, and so are the values returned. */
  lemma {:induction false} RandRSimulatesRand(seed: nat, n: nat)
    requires n >= 1
    ensures RandRIterate(seed, n) + 1 == Iterate(Seeded(seed), n)
  {
    if n > 1 {
      RandRSimulatesRand(seed, n - 1);
      IterateStaysState(Seeded(seed), n - 1);
      var c := RandRIterate(seed, n - 1);
      RemainderUnique(c, 0, c, 0x7fff_fffe);
    }
  }

  /** The library's generator, with its static word. The ghost fields record the
      state the last srand installed and the calls to rand since. */
  class Generator {
    const next: Word
    ghost var start: nat
    ghost var calls: nat

    ghost predicate Valid()
      reads this, next
    {
      IsState(start) && next.value as nat == Iterate(start, calls)
    }

    /** Without any srand the generator behaves as after srand(1). */
    constructor ()
      ensures Valid() && fresh(next)
      ensures start == next.value as nat == 2 == Seeded(1) && calls == 0
    {
      next := new Word(2);
      start, calls := 2, 0;
    }

    /** The n-th call after seeding returns the closed form, in [0, 0x7ffffffd]. */
    method Rand() returns (r: int32)
      requires Valid()
      modifies this, next
      ensures Valid()
      ensures start == old(start) && calls == old(calls) + 1
      ensures r as int == Pow(16807, calls) * start % 0x7fff_ffff - 1
      ensures 0 <= r <= 0x7fff_fffd
    {
      IterateStaysState(start, calls);
      r := DoRand(next);
      calls := calls + 1;
      IterateClosedForm(start, calls);
    }

    method Srand(seed: uint32)
      modifies this, next
      ensures Valid()
      ensures IsSeeding(seed as nat, start) && next.value as nat == start && calls == 0
      ensures start == Seeded(seed as nat)
    {
      SeededMeaning(seed as nat);
      next.value := seed;
      next.value := next.value % 0x7fff_fffe + 1;
      start, calls := Seeded(seed as nat), 0;
    }
  }
}
