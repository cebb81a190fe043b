// The file checksum of the kernel shell: a table-driven CRC-32.

module Crc32 {
  import opened Bits

  type Byte = x: nat | x < 256

  /** The generator polynomial without its leading term, lowest degree in the highest bit. */
  const POLYNOMIAL: nat := 0xEDB8_8320
  const ALL_ONES: nat := 0xFFFF_FFFF

  // The reference: one message bit at a time ----------------------------------

  function Feedback(c: nat): nat {
    if c % 2 == 1 then POLYNOMIAL else 0
  }

  function Shift(c: nat): nat {
    Xor(c / 2, Feedback(c))
  }

  function Unit(bit: bool): nat {
    if bit then 1 else 0
  }

  /** The register after the bits of a message. */
  function Serial(c: nat, bits: seq<bool>): nat
    decreases |bits|
  {
    if bits == [] then c else Serial(Shift(Xor(c, Unit(bits[0]))), bits[1..])
  }

  /** The n low bits of v, lowest first. */
  function LowBits(v: nat, n: nat): (bits: seq<bool>)
    ensures |bits| == n
    decreases n
  {
    if n == 0 then [] else [v % 2 == 1] + LowBits(v / 2, n - 1)
  }

  function MessageBits(data: seq<Byte>): (bits: seq<bool>)
    ensures |bits| == 8 * |data|
  {
    if data == [] then [] else LowBits(data[0], 8) + MessageBits(data[1..])
  }

  function Checksum(bits: seq<bool>): int {
    ALL_ONES - Serial(ALL_ONES, bits)
  }

  lemma {:induction false} SerialAppend(c: nat, a: seq<bool>, b: seq<bool>)
    ensures Serial(c, a + b) == Serial(Serial(c, a), b)
    decreases |a|
  {
    hide Shift, Xor;
    if a == [] {
      assert a + b == b;
    } else {
      SerialAppend(Shift(Xor(c, Unit(a[0]))), a[1..], b);
      assert (a + b)[1..] == a[1..] + b;
    }
  }

  lemma FeedbackLinear(a: nat, b: nat)
    ensures Feedback(Xor(a, b)) == Xor(Feedback(a), Feedback(b))
  {
    hide Xor;
    XorZero(POLYNOMIAL);
    XorZero(0);
    XorSelf(POLYNOMIAL);
    ZeroXor(POLYNOMIAL);
    XorHalves(a, b);
  }

  lemma {:induction false} ZeroXor(x: nat)
    ensures Xor(0, x) == x
  {
    if x > 0 {
      ZeroXor(x / 2);
    }
  }

  lemma ShiftLinear(a: nat, b: nat)
    ensures Shift(Xor(a, b)) == Xor(Shift(a), Shift(b))
  {
    hide Xor, Feedback;
    XorHalves(a, b);
    FeedbackLinear(a, b);
    XorExchange(a / 2, b / 2, Feedback(a), Feedback(b));
  }

  lemma ShiftEven(c: nat)
    ensures Shift(2 * c) == c
  {
    hide Xor;
    XorZero(c);
  }

  // The table refines the reference -------------------------------------------

  function Shifts(c: nat, n: nat): nat
    decreases n
  {
    if n == 0 then c else Shifts(Shift(c), n - 1)
  }

  lemma {:induction false} ShiftsSnoc(c: nat, n: nat)
    ensures Shifts(c, n + 1) == Shift(Shifts(c, n))
    decreases n
  {
    hide Shift;
    if n > 0 {
      ShiftsSnoc(Shift(c), n - 1);
    }
  }

  lemma {:induction false} ShiftsLinear(a: nat, b: nat, n: nat)
    ensures Shifts(Xor(a, b), n) == Xor(Shifts(a, n), Shifts(b, n))
    decreases n
  {
    hide Shift, Xor;
    if n > 0 {
      ShiftLinear(a, b);
      ShiftsLinear(Shift(a), Shift(b), n - 1);
    }
  }

  /** Bits above the n lowest pass through n shifts unchanged. */
  lemma {:induction false} ShiftsHigh(y: nat, n: nat)
    ensures Shifts(Shl(y, n), n) == y
    decreases n
  {
    hide Shift;
    if n > 0 {
      ShiftEven(Shl(y, n - 1));
      ShiftsHigh(y, n - 1);
    }
  }

  lemma {:induction false} XorSplit(x: nat, n: nat)
    ensures x == Xor(And(x, Mask(n)), Shl(Shr(x, n), n))
    decreases n
  {
    hide Xor, Mask;
    if n == 0 {
      MaskStep(0);
      ZeroXor(x);
    } else {
      XorSplit(x / 2, n - 1);
      MaskStep(n);
      XorHalves(And(x, Mask(n)), Shl(Shr(x, n), n));
      if x == 0 {
        ShrZero(n);
      }
    }
  }

  lemma MaskStep(n: nat)
    ensures Mask(0) == 0
    ensures n > 0 ==> Mask(n) / 2 == Mask(n - 1) && Mask(n) % 2 == 1
  {
  }

  /** Feeding the n bits of v one by one is XORing them in at once and shifting n times. */
  lemma {:induction false} FeedAtOnce(c: nat, v: nat, n: nat)
    requires v < Pow2(n)
    ensures Serial(c, LowBits(v, n)) == Shifts(Xor(c, v), n)
    decreases n
  {
    hide Shift, Xor;
    if n == 0 {
      XorZero(c);
    } else {
      var first := Unit(v % 2 == 1);
      FeedAtOnce(Shift(Xor(c, first)), v / 2, n - 1);
      FeedFirst(c, v);
      assert LowBits(v, n)[1..] == LowBits(v / 2, n - 1);
    }
  }

  lemma FeedFirst(c: nat, v: nat)
    ensures Shift(Xor(c, v)) == Xor(Shift(Xor(c, Unit(v % 2 == 1))), v / 2)
  {
    hide Shift, Xor;
    var first := Unit(v % 2 == 1);
    Regroup(c, v, first);
    ShiftLinear(Xor(c, first), 2 * (v / 2));
    ShiftEven(v / 2);
  }

  lemma Regroup(c: nat, v: nat, first: nat)
    requires first == v % 2
    ensures Xor(c, v) == Xor(Xor(c, first), 2 * (v / 2))
  {
    hide Xor;
    XorHalves(c, v);
    XorHalves(c, first);
    XorHalves(Xor(c, first), 2 * (v / 2));
    XorZero(c / 2);
  }

  /** One step of the table-driven loop is eight steps of the reference. */
  lemma TableStep(c: nat, v: Byte)
    ensures Serial(c, LowBits(v, 8)) == Xor(Shifts(And(Xor(c, v), 0xFF), 8), Shr(c, 8))
  {
    hide Serial, Shifts, LowBits, Xor, And, Shr, Shl, Pow2;
    ByteMask();
    FeedAtOnce(c, v, 8);
    var x := Xor(c, v);
    XorSplit(x, 8);
    ShiftsLinear(And(x, 0xFF), Shl(Shr(x, 8), 8), 8);
    ShiftsHigh(Shr(x, 8), 8);
    ShrXor(c, v, 8);
  }

  lemma ByteMask()
    ensures Pow2(8) == 256 && Mask(8) == 0xFF
  {
  }

  lemma {:induction false} ShrXor(c: nat, v: nat, n: nat)
    requires v < Pow2(n)
    ensures Shr(Xor(c, v), n) == Shr(c, n)
    decreases n
  {
    hide Xor;
    if n == 0 {
      XorZero(c);
    } else {
      XorHalves(c, v);
      ShrXor(c / 2, v / 2, n - 1);
    }
  }

  lemma CodeShift(c: nat)
    ensures Xor(Shr(c, 1), if And(c, 1) != 0 then POLYNOMIAL else 0) == Shift(c)
  {
    hide Xor, And, Mask;
    AndMask(c, 1);
    assert Mask(1) == 1 by { LowestBit(); }
  }

  lemma LowestBit()
    ensures Mask(1) == 1
  {
  }

  method ByteChecksum(n: nat) returns (checksum: nat)
    ensures checksum == Shifts(n, 8)
  {
    hide Shifts, Xor, And, Shr, Shift;
    checksum := n;
    NoShifts(n);
    for i := 0 to 8
      invariant checksum == Shifts(n, i)
    {
      ShiftsSnoc(n, i);
      CodeShift(checksum);
      checksum := Xor(Shr(checksum, 1), if And(checksum, 1) != 0 then POLYNOMIAL else 0);
    }
  }

  method GenerateTable() returns (table: array<nat>)
    ensures fresh(table) && table.Length == 256
    ensures forall n :: 0 <= n < 256 ==> table[n] == Shifts(n, 8)
  {
    hide Shifts;
    table := new nat[256];
    for n := 0 to 256
      invariant forall m :: 0 <= m < n ==> table[m] == Shifts(m, 8)
    {
      var checksum := ByteChecksum(n);
      table[n] := checksum;
    }
  }

  lemma NoShifts(n: nat)
    ensures Shifts(n, 0) == n
  {
  }

  method Crc(data: seq<Byte>) returns (r: nat)
    ensures r == Checksum(MessageBits(data))
    ensures r <= ALL_ONES
  {
    hide Shifts, Serial, LowBits, MessageBits, And, Shr, Xor;
    var table := GenerateTable();
    var checksum := ALL_ONES;
    NoMessage(ALL_ONES);
    assert data[..0] == [];
    for i := 0 to |data|
      invariant checksum == Serial(ALL_ONES, MessageBits(data[..i])) <= ALL_ONES
      invariant forall n :: 0 <= n < 256 ==> table[n] == Shifts(n, 8)
    {
      TableStep(checksum, data[i]);
      IndexFits(Xor(checksum, data[i]));
      NextByte(ALL_ONES, data, i);
      SerialFits(checksum, LowBits(data[i], 8));
      checksum := Xor(table[And(Xor(checksum, data[i]), 0xFF)], Shr(checksum, 8));
    }
    assert data[..|data|] == data;
    r := ALL_ONES - checksum;
  }

  lemma NoMessage(c: nat)
    ensures Serial(c, MessageBits([])) == c
  {
  }

  lemma IndexFits(x: nat)
    ensures And(x, 0xFF) < 256
  {
    hide And, Pow2;
    ByteMask();
    AndMask(x, 8);
  }

  lemma NextByte(c: nat, data: seq<Byte>, i: nat)
    requires i < |data|
    ensures Serial(c, MessageBits(data[..i + 1])) == Serial(Serial(c, MessageBits(data[..i])), LowBits(data[i], 8))
  {
    hide Serial, LowBits;
    MessageAppend(data[..i], data[i]);
    assert data[..i + 1] == data[..i] + [data[i]];
    SerialAppend(c, MessageBits(data[..i]), LowBits(data[i], 8));
  }

  lemma {:induction false} MessageAppend(data: seq<Byte>, v: Byte)
    ensures MessageBits(data + [v]) == MessageBits(data) + LowBits(v, 8)
  {
    hide LowBits;
    if data == [] {
      assert data + [v] == [v];
      assert [v][1..] == [];
    } else {
      MessageAppend(data[1..], v);
      assert (data + [v])[1..] == data[1..] + [v];
    }
  }

  lemma WordSize()
    ensures Pow2(32) == ALL_ONES + 1 && Pow2(31) <= POLYNOMIAL < Pow2(32) && Pow2(31) > 1
    ensures Pow2(32) == 2 * Pow2(31)
  {
    hide Pow2;
    Pow2Values();
  }

  lemma ShiftFits(c: nat)
    requires c < Pow2(32)
    ensures Shift(c) < Pow2(32)
  {
    hide Xor, Pow2;
    WordSize();
    XorFits(c / 2, Feedback(c), 32);
  }

  lemma {:induction false} SerialFits(c: nat, bits: seq<bool>)
    requires c <= ALL_ONES
    ensures Serial(c, bits) <= ALL_ONES
    decreases |bits|
  {
    hide Shift, Xor, Pow2;
    if bits != [] {
      WordSize();
      XorFits(c, Unit(bits[0]), 32);
      ShiftFits(Xor(c, Unit(bits[0])));
      SerialFits(Shift(Xor(c, Unit(bits[0]))), bits[1..]);
    }
  }

  // What the checksum detects -------------------------------------------------

  /** Feedback sets the top bit, so a small result of a shift came from a small even word. */
  lemma ShiftSmall(x: nat, k: nat)
    requires x < Pow2(32) && k <= 31 && Shift(x) < Pow2(k)
    ensures x % 2 == 0 && x < Pow2(k + 1)
  {
    WordSize();
    Pow2Monotone(k, 31);
    assert Pow2(k + 1) == 2 * Pow2(k);
    hide Xor, Pow2;
    if x % 2 == 1 {
      XorTop(x / 2, POLYNOMIAL, 31);
    } else {
      XorZero(x / 2);
    }
  }

  /** The difference of two registers moves on by itself. */
  lemma Difference(c1: nat, c2: nat, u1: nat, u2: nat)
    ensures Xor(Shift(Xor(c1, u1)), Shift(Xor(c2, u2))) == Shift(Xor(Xor(c1, c2), Xor(u1, u2)))
  {
    hide Xor, Shift;
    ShiftLinear(Xor(c1, u1), Xor(c2, u2));
    XorExchange(c1, u1, c2, u2);
  }

  lemma RegisterFits(c: nat, bit: bool)
    requires c < Pow2(32)
    ensures Xor(c, Unit(bit)) < Pow2(32) && Shift(Xor(c, Unit(bit))) < Pow2(32)
  {
    hide Xor, Shift, Pow2;
    WordSize();
    XorFits(c, Unit(bit), 32);
    ShiftFits(Xor(c, Unit(bit)));
  }

  /** k more bits can make up only for a difference in the k low bits. */
  lemma {:induction false} MeetingRegisters(c1: nat, c2: nat, a: seq<bool>, b: seq<bool>)
    requires c1 < Pow2(32) && c2 < Pow2(32) && |a| == |b| <= 31 && Serial(c1, a) == Serial(c2, b)
    ensures Xor(c1, c2) < Pow2(|a|)
    decreases |a|
  {
    hide Xor, Shift, Pow2;
    if a == [] {
      XorSelf(c1);
    } else {
      var u1, u2 := Unit(a[0]), Unit(b[0]);
      RegisterFits(c1, a[0]);
      RegisterFits(c2, b[0]);
      MeetingRegisters(Shift(Xor(c1, u1)), Shift(Xor(c2, u2)), a[1..], b[1..]);
      Difference(c1, c2, u1, u2);
      XorFits(c1, c2, 32);
      UnitXor(u1, u2);
      DifferenceBefore(Xor(c1, c2), Xor(u1, u2), |a|);
    }
  }

  lemma UnitXor(u1: nat, u2: nat)
    requires u1 < 2 && u2 < 2
    ensures Xor(u1, u2) < 2
  {
  }

  lemma DifferenceBefore(d: nat, u: nat, k: nat)
    requires d < Pow2(32) && u < 2 && 1 <= k <= 31 && Shift(Xor(d, u)) < Pow2(k - 1)
    ensures d < Pow2(k)
  {
    hide Xor, Shift, Pow2;
    WordSize();
    XorFits(d, u, 32);
    ShiftSmall(Xor(d, u), k - 1);
    XorHalves(d, u);
    XorZero(d / 2);
    EvenBelow(Xor(d, u), d, k);
  }

  lemma EvenBelow(x: nat, d: nat, k: nat)
    requires k >= 1 && x % 2 == 0 && x < Pow2(k) && d / 2 == x / 2
    ensures d < Pow2(k)
  {
  }

  lemma {:induction false} RegistersApart(c1: nat, c2: nat, bits: seq<bool>)
    requires c1 < Pow2(32) && c2 < Pow2(32) && Serial(c1, bits) == Serial(c2, bits)
    ensures c1 == c2
    decreases |bits|
  {
    hide Xor, Shift, Pow2;
    if bits != [] {
      var u := Unit(bits[0]);
      RegisterFits(c1, bits[0]);
      RegisterFits(c2, bits[0]);
      RegistersApart(Shift(Xor(c1, u)), Shift(Xor(c2, u)), bits[1..]);
      Difference(c1, c2, u, u);
      XorSelf(Shift(Xor(c1, u)));
      XorSelf(u);
      XorZero(Xor(c1, c2));
      ShiftToNothing(c1, c2);
    }
  }

  lemma ShiftToNothing(c1: nat, c2: nat)
    requires c1 < Pow2(32) && c2 < Pow2(32) && Shift(Xor(c1, c2)) == 0
    ensures c1 == c2
  {
    assert Pow2(1) == 2;
    hide Xor, Shift, Pow2;
    XorFits(c1, c2, 32);
    ShiftSmall(Xor(c1, c2), 0);
    XorEqual(c1, c2);
  }

  lemma {:induction false} ShortBurst(c: nat, a: seq<bool>, b: seq<bool>)
    requires c < Pow2(32) && |a| == |b| <= 32 && a != b
    ensures Serial(c, a) != Serial(c, b)
    decreases |a|
  {
    hide Xor, Shift, Pow2;
    var c1, c2 := Shift(Xor(c, Unit(a[0]))), Shift(Xor(c, Unit(b[0])));
    RegisterFits(c, a[0]);
    RegisterFits(c, b[0]);
    if a[0] == b[0] {
      assert a == [a[0]] + a[1..] && b == [b[0]] + b[1..];
      ShortBurst(c1, a[1..], b[1..]);
    } else if Serial(c1, a[1..]) == Serial(c2, b[1..]) {
      MeetingRegisters(c1, c2, a[1..], b[1..]);
      FirstDifference(c, a[0], b[0]);
      Pow2Monotone(|a| - 1, 31);
      WordSize();
    }
  }

  lemma FirstDifference(c: nat, x: bool, y: bool)
    requires x != y
    ensures Xor(Shift(Xor(c, Unit(x))), Shift(Xor(c, Unit(y)))) == POLYNOMIAL
  {
    assert Xor(0, 1) == 1 == Xor(1, 0);
    hide Xor;
    Difference(c, c, Unit(x), Unit(y));
    XorSelf(c);
    ZeroXor(1);
    ZeroXor(POLYNOMIAL);
  }

  /** Any change confined to 32 consecutive bits of a message changes its checksum. */
  lemma BurstDetected(before: seq<bool>, a: seq<bool>, b: seq<bool>, after: seq<bool>)
    requires |a| == |b| <= 32 && a != b
    ensures Checksum(before + a + after) != Checksum(before + b + after)
  {
    hide Serial, Pow2;
    WordSize();
    var c := Serial(ALL_ONES, before);
    SerialFits(ALL_ONES, before);
    SerialFits(c, a);
    SerialFits(c, b);
    SerialAppend(ALL_ONES, before, a);
    SerialAppend(ALL_ONES, before + a, after);
    SerialAppend(ALL_ONES, before, b);
    SerialAppend(ALL_ONES, before + b, after);
    ShortBurst(c, a, b);
    if Serial(Serial(c, a), after) == Serial(Serial(c, b), after) {
      RegistersApart(Serial(c, a), Serial(c, b), after);
    }
  }

  lemma {:induction false} LowBitsDetermine(v: nat, w: nat, n: nat)
    requires v < Pow2(n) && w < Pow2(n) && LowBits(v, n) == LowBits(w, n)
    ensures v == w
    decreases n
  {
    if n > 0 {
      assert LowBits(v, n)[0] == LowBits(w, n)[0];
      assert LowBits(v, n)[1..] == LowBits(v / 2, n - 1);
      assert LowBits(w, n)[1..] == LowBits(w / 2, n - 1);
      LowBitsDetermine(v / 2, w / 2, n - 1);
    }
  }

  lemma {:induction false} BytesDetermine(m1: seq<Byte>, m2: seq<Byte>)
    requires |m1| == |m2| && MessageBits(m1) == MessageBits(m2)
    ensures m1 == m2
  {
    hide LowBits, Pow2;
    if m1 != [] {
      ByteMask();
      assert MessageBits(m1)[..8] == LowBits(m1[0], 8) && MessageBits(m1)[8..] == MessageBits(m1[1..]);
      assert MessageBits(m2)[..8] == LowBits(m2[0], 8) && MessageBits(m2)[8..] == MessageBits(m2[1..]);
      LowBitsDetermine(m1[0], m2[0], 8);
      BytesDetermine(m1[1..], m2[1..]);
    }
  }

  /** Two files of one length that differ, but only within 32 consecutive bits, have
      different checksums. */
  lemma FileBurstDetected(m1: seq<Byte>, m2: seq<Byte>, from: nat, to: nat)
    requires |m1| == |m2| && m1 != m2 && from <= to <= |MessageBits(m1)| && to - from <= 32
    requires MessageBits(m1)[..from] == MessageBits(m2)[..from] && MessageBits(m1)[to..] == MessageBits(m2)[to..]
    ensures Checksum(MessageBits(m1)) != Checksum(MessageBits(m2))
  {
    hide MessageBits, Checksum;
    var s1, s2 := MessageBits(m1), MessageBits(m2);
    assert s1 == s1[..from] + s1[from..to] + s1[to..];
    assert s2 == s2[..from] + s2[from..to] + s2[to..];
    if s1[from..to] == s2[from..to] {
      BytesDetermine(m1, m2);
    } else {
      BurstDetected(s1[..from], s1[from..to], s2[from..to], s1[to..]);
    }
  }

  /** a with the bits of e flipped, lowest first. */
  function Flip(a: seq<bool>, e: nat): (b: seq<bool>)
    ensures |b| == |a|
  {
    if a == [] then [] else [a[0] != (e % 2 == 1)] + Flip(a[1..], e / 2)
  }

  /** A difference that the message itself cancels bit by bit. */
  lemma {:induction false} Cancel(c: nat, a: seq<bool>, e: nat)
    requires e < Pow2(|a|)
    ensures Serial(Xor(c, e), Flip(a, e)) == Serial(c, a)
    decreases |a|
  {
    hide Xor, Shift;
    if a == [] {
      XorZero(c);
    } else {
      var u, v := Unit(a[0]), Unit(a[0] != (e % 2 == 1));
      CancelBit(c, e, a[0]);
      Cancel(Shift(Xor(c, u)), a[1..], e / 2);
      assert Flip(a, e)[1..] == Flip(a[1..], e / 2);
    }
  }

  lemma CancelBit(c: nat, e: nat, bit: bool)
    ensures Shift(Xor(Xor(c, e), Unit(bit != (e % 2 == 1)))) == Xor(Shift(Xor(c, Unit(bit))), e / 2)
  {
    assert Xor(0, 1) == 1 == Xor(1, 0) && Xor(1, 1) == 0 == Xor(0, 0);
    hide Xor, Shift;
    var u, first := Unit(bit), e % 2;
    assert Unit(bit != (e % 2 == 1)) == Xor(u, first);
    XorExchange(c, e, u, first);
    XorHalves(e, first);
    XorZero(e / 2);
    ShiftLinear(Xor(c, u), 2 * (e / 2));
    ShiftEven(e / 2);
  }

  /** The bound is the best possible: adding the 33 coefficients of the full generator
      polynomial goes unnoticed in every message. */
  lemma GeneratorUndetected(before: seq<bool>, a: seq<bool>, after: seq<bool>)
    requires |a| == 33
    ensures Flip(a, 2 * POLYNOMIAL + 1) != a
    ensures Checksum(before + Flip(a, 2 * POLYNOMIAL + 1) + after) == Checksum(before + a + after)
  {
    var b := Flip(a, 2 * POLYNOMIAL + 1);
    assert b[0] != a[0] && b[1..] == Flip(a[1..], POLYNOMIAL);
    hide Serial, Flip, Xor, Shift, Pow2;
    var c := Serial(ALL_ONES, before);
    FlipFirst(c, a[0], b[0]);
    WordSize();
    Cancel(Shift(Xor(c, Unit(a[0]))), a[1..], POLYNOMIAL);
    SerialFirst(c, a);
    SerialFirst(c, b);
    SerialAppend(ALL_ONES, before, a);
    SerialAppend(ALL_ONES, before + a, after);
    SerialAppend(ALL_ONES, before, b);
    SerialAppend(ALL_ONES, before + b, after);
  }

  lemma SerialFirst(c: nat, bits: seq<bool>)
    requires bits != []
    ensures Serial(c, bits) == Serial(Shift(Xor(c, Unit(bits[0]))), bits[1..])
  {
  }

  lemma FlipFirst(c: nat, x: bool, y: bool)
    requires x != y
    ensures Shift(Xor(c, Unit(y))) == Xor(Shift(Xor(c, Unit(x))), POLYNOMIAL)
  {
    hide Xor, Shift;
    var sx, sy := Shift(Xor(c, Unit(x))), Shift(Xor(c, Unit(y)));
    FirstDifference(c, x, y);
    XorExchange(sx, 0, sx, sy);
    XorZero(sx);
    XorSelf(sx);
    ZeroXor(sy);
    ZeroXor(Xor(0, sy));
  }
}
