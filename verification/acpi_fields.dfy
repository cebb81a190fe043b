// ACPICA's packed words: bit fields written with ACPI_SET_BITS and read with
// ACPI_GET_BITS, the _PLD layouts (section 6.1.8 of the ACPI Specification 6.2),
// and the packed argument lists of the opcode table.

module AcpiFields {
  import opened Division
  import opened Bits

  datatype Field = Field(pos: nat, width: nat)

  /** A field together with the value written to it. */
  datatype Entry = Entry(field: Field, value: nat)

  function GetBits(word: nat, f: Field): nat {
    And(Shr(word, f.pos), Mask(f.width))
  }

  /** The shifted value is a 32-bit expression. */
  function SetBits(word: nat, f: Field, value: nat): nat {
    Or(word, And(Shl(And(value, Mask(f.width)), f.pos), Mask(32)))
  }

  /** Writing a list of fields, first to last. */
  function Encode(word: nat, entries: seq<Entry>): nat
    decreases |entries|
  {
    if entries == [] then word
    else Encode(SetBits(word, entries[0].field, entries[0].value), entries[1..])
  }

  function Decode(word: nat, fields: seq<Field>): seq<Entry> {
    seq(|fields|, i requires 0 <= i < |fields| => Entry(fields[i], GetBits(word, fields[i])))
  }

  /** A 32-bit word updated in place. */
  class Dword {
    var value: nat

    constructor ()
      ensures value == 0
    {
      value := 0;
    }

    /** ORs the masked value into the field and leaves every other bit alone. */
    method Set(f: Field, v: nat)
      modifies this
      ensures value == SetBits(old(value), f, v)
      ensures forall i: nat :: Bit(value, i) <==> Bit(old(value), i) || (i < 32 && Writes(Entry(f, v), i))
    {
      forall i: nat
        ensures Bit(SetBits(value, f, v), i) <==> Bit(value, i) || (i < 32 && Writes(Entry(f, v), i))
      {
        SetBitsBit(value, f, v, i);
      }
      value := Or(value, And(Shl(And(v, Mask(f.width)), f.pos), Mask(32)));
    }
  }

  // Bit by bit ----------------------------------------------------------------

  ghost predicate Inside(f: Field, i: nat) {
    f.pos <= i < f.pos + f.width
  }

  /** Writing this entry sets bit i. */
  ghost predicate Writes(e: Entry, i: nat) {
    Inside(e.field, i) && Bit(e.value, i - e.field.pos)
  }

  lemma GetBitsBit(word: nat, f: Field, i: nat)
    ensures Bit(GetBits(word, f), i) <==> i < f.width && Bit(word, f.pos + i)
  {
    BitAnd(Shr(word, f.pos), Mask(f.width), i);
    BitShr(word, f.pos, i);
    BitMask(f.width, i);
  }

  lemma SetBitsBit(word: nat, f: Field, value: nat, i: nat)
    ensures Bit(SetBits(word, f, value), i) <==> Bit(word, i) || (i < 32 && Writes(Entry(f, value), i))
  {
    hide And, Or, Shl, Mask, Bit;
    var masked := And(value, Mask(f.width));
    var shifted := Shl(masked, f.pos);
    BitOr(word, And(shifted, Mask(32)), i);
    BitAnd(shifted, Mask(32), i);
    BitMask(32, i);
    BitShl(masked, f.pos, i);
    if i >= f.pos {
      BitAnd(value, Mask(f.width), i - f.pos);
      BitMask(f.width, i - f.pos);
    }
  }

  /** A bit of the encoded word is set exactly when it was set before or some
      entry writes it: writing never clears. */
  lemma {:induction false} EncodeBit(word: nat, entries: seq<Entry>, i: nat)
    ensures Bit(Encode(word, entries), i) <==> Bit(word, i) || (i < 32 && exists e :: e in entries && Writes(e, i))
    decreases |entries|
  {
    if entries != [] {
      var first, rest := entries[0], entries[1..];
      EncodeBit(SetBits(word, first.field, first.value), rest, i);
      SetBitsBit(word, first.field, first.value, i);
      assert forall e :: e in entries <==> e == first || e in rest;
    }
  }

  // Round trips ---------------------------------------------------------------

  ghost predicate Disjoint(f: Field, g: Field) {
    f.pos + f.width <= g.pos || g.pos + g.width <= f.pos
  }

  /** The entries name pairwise disjoint fields of a 32-bit word. */
  ghost predicate Separate(entries: seq<Entry>) {
    && (forall i :: 0 <= i < |entries| ==> entries[i].field.pos + entries[i].field.width <= 32)
    && (forall i, j :: 0 <= i < j < |entries| ==> Disjoint(entries[i].field, entries[j].field))
  }

  /** Fields written into a zero word read back as the written values, masked. */
  lemma EncodeThenGet(entries: seq<Entry>, k: nat)
    requires Separate(entries) && k < |entries|
    ensures GetBits(Encode(0, entries), entries[k].field) == And(entries[k].value, Mask(entries[k].field.width))
  {
    var e := entries[k];
    var got, want := GetBits(Encode(0, entries), e.field), And(e.value, Mask(e.field.width));
    forall i: nat
      ensures Bit(got, i) == Bit(want, i)
    {
      hide And, GetBits, Encode, Mask, Bit;
      GotBit(entries, k, i);
      BitAnd(e.value, Mask(e.field.width), i);
      BitMask(e.field.width, i);
    }
    hide And, GetBits, Encode, Mask, Bit;
    BitsDetermine(got, want);
  }

  lemma GotBit(entries: seq<Entry>, k: nat, i: nat)
    requires Separate(entries) && k < |entries|
    ensures var e := entries[k];
            Bit(GetBits(Encode(0, entries), e.field), i) <==> i < e.field.width && Bit(e.value, i)
  {
    hide GetBits, Encode, Bit;
    var e := entries[k];
    GetBitsBit(Encode(0, entries), e.field, i);
    EncodeBit(0, entries, e.field.pos + i);
    BitZero(e.field.pos + i);
    if i < e.field.width {
      OnlyWriter(entries, k, e.field.pos + i);
      assert e in entries;
    }
  }

  lemma OnlyWriter(entries: seq<Entry>, k: nat, i: nat)
    requires Separate(entries) && k < |entries| && Inside(entries[k].field, i)
    ensures forall e :: e in entries && Writes(e, i) ==> e == entries[k]
  {
    forall j | 0 <= j < |entries| && j != k
      ensures !Inside(entries[j].field, i)
    {
      assert if j < k then Disjoint(entries[j].field, entries[k].field)
             else Disjoint(entries[k].field, entries[j].field);
    }
  }

  /** The order of writing does not matter. */
  lemma EncodeOrderFree(word: nat, xs: seq<Entry>, ys: seq<Entry>)
    requires forall e :: e in xs <==> e in ys
    ensures Encode(word, xs) == Encode(word, ys)
  {
    forall i: nat
      ensures Bit(Encode(word, xs), i) == Bit(Encode(word, ys), i)
    {
      EncodeBit(word, xs, i);
      EncodeBit(word, ys, i);
    }
    BitsDetermine(Encode(word, xs), Encode(word, ys));
  }

  /** Reading fields that tile bits 0..n and writing them back keeps exactly those
      bits of the word. */
  lemma DecodeThenEncode(word: nat, fields: seq<Field>, n: nat)
    requires Tiles(fields, 0, n) && n <= 32
    ensures Encode(0, Decode(word, fields)) == word % Pow2(n)
  {
    var back, want := Encode(0, Decode(word, fields)), And(word, Mask(n));
    forall i: nat
      ensures Bit(back, i) == Bit(want, i)
    {
      hide And, Encode, Mask, Bit, Decode;
      BackBit(word, fields, n, i);
      BitAnd(word, Mask(n), i);
      BitMask(n, i);
    }
    hide And, Encode, Mask, Bit, Decode, Pow2;
    BitsDetermine(back, want);
    AndMask(word, n);
  }

  lemma BackBit(word: nat, fields: seq<Field>, n: nat, i: nat)
    requires Tiles(fields, 0, n) && n <= 32
    ensures Bit(Encode(0, Decode(word, fields)), i) <==> i < n && Bit(word, i)
  {
    hide And, Encode, Mask, Bit, GetBits, Tiles;
    var entries := Decode(word, fields);
    EncodeBit(0, entries, i);
    BitZero(i);
    DecodedWriters(word, fields, n, i);
    if i < n {
      var k := TileAt(fields, 0, n, i);
      GetBitsBit(word, fields[k], i - fields[k].pos);
      assert entries[k] in entries;
    }
  }

  lemma DecodedWriters(word: nat, fields: seq<Field>, n: nat, i: nat)
    requires Tiles(fields, 0, n)
    ensures forall e :: e in Decode(word, fields) && Writes(e, i) ==> i < n && Bit(word, i)
  {
    forall e | e in Decode(word, fields) && Writes(e, i)
      ensures i < n && Bit(word, i)
    {
      var k :| 0 <= k < |fields| && e == Entry(fields[k], GetBits(word, fields[k]));
      GetBitsBit(word, fields[k], i - fields[k].pos);
      TilesInside(fields, 0, n, k);
    }
  }

  // Contiguous layouts --------------------------------------------------------

  /** The fields lie end to end from bit lo up to bit hi. */
  predicate Tiles(fields: seq<Field>, lo: nat, hi: nat) {
    if fields == [] then lo == hi
    else fields[0].pos == lo && Tiles(fields[1..], lo + fields[0].width, hi)
  }

  lemma {:induction false} TilesInside(fields: seq<Field>, lo: nat, hi: nat, k: nat)
    requires Tiles(fields, lo, hi) && k < |fields|
    ensures lo <= fields[k].pos && fields[k].pos + fields[k].width <= hi
  {
    if k > 0 {
      TilesInside(fields[1..], lo + fields[0].width, hi, k - 1);
    } else {
      TilesOrdered(fields[1..], lo + fields[0].width, hi);
    }
  }

  lemma {:induction false} TilesOrdered(fields: seq<Field>, lo: nat, hi: nat)
    requires Tiles(fields, lo, hi)
    ensures lo <= hi
  {
    if fields != [] {
      TilesOrdered(fields[1..], lo + fields[0].width, hi);
    }
  }

  lemma {:induction false} TileAt(fields: seq<Field>, lo: nat, hi: nat, i: nat) returns (k: nat)
    requires Tiles(fields, lo, hi) && lo <= i < hi
    ensures k < |fields| && Inside(fields[k], i)
  {
    if i < lo + fields[0].width {
      k := 0;
    } else {
      k := TileAt(fields[1..], lo + fields[0].width, hi, i);
      k := k + 1;
    }
  }

  lemma {:induction false} TilesDisjoint(fields: seq<Field>, lo: nat, hi: nat, i: nat, j: nat)
    requires Tiles(fields, lo, hi) && i < j < |fields|
    ensures Disjoint(fields[i], fields[j])
  {
    if i > 0 {
      TilesDisjoint(fields[1..], lo + fields[0].width, hi, i - 1, j - 1);
    } else {
      TilesInside(fields[1..], lo + fields[0].width, hi, j - 1);
    }
  }

  /** Where each field ends. */
  function EndOf(fields: seq<Field>, i: nat): nat
    requires i < |fields|
  {
    fields[i].pos + fields[i].width
  }

  lemma {:induction false} TilesByEnds(fields: seq<Field>, hi: nat, k: nat)
    requires k <= |fields| && |fields| > 0 && EndOf(fields, |fields| - 1) == hi
    requires forall i :: 0 < i < |fields| ==> fields[i].pos == EndOf(fields, i - 1)
    ensures Tiles(fields[k..], if k == 0 then fields[0].pos else EndOf(fields, k - 1), hi)
    decreases |fields| - k
  {
    if k < |fields| {
      TilesByEnds(fields, hi, k + 1);
      assert fields[k..][1..] == fields[k + 1..];
    }
  }

  // The five _PLD dwords ------------------------------------------------------

  const PLD1: seq<Field> := [Field(0, 7), Field(7, 1), Field(8, 8), Field(16, 8), Field(24, 8)]
  const PLD2: seq<Field> := [Field(0, 16), Field(16, 16)]
  const PLD3: seq<Field> := [
    Field(0, 1), Field(1, 1), Field(2, 1), Field(3, 3), Field(6, 2), Field(8, 2),
    Field(10, 4), Field(14, 1), Field(15, 8), Field(23, 8), Field(31, 1)]
  const PLD4: seq<Field> := [
    Field(0, 1), Field(1, 1), Field(2, 8), Field(10, 8), Field(18, 1), Field(19, 4), Field(23, 5)]
  const PLD5: seq<Field> := [Field(0, 16), Field(16, 16)]

  const PLD: seq<seq<Field>> := [PLD1, PLD2, PLD3, PLD4, PLD5]

  /** How many low bits of a dword its fields describe. */
  function PldBits(d: nat): nat
    requires d < 5
  {
    if d == 3 then 28 else 32
  }

  lemma PldTiles(d: nat)
    requires d < 5
    ensures Tiles(PLD[d], 0, PldBits(d))
  {
    TilesByEnds(PLD[d], PldBits(d), 0);
    assert PLD[d][0..] == PLD[d];
  }

  /** A _PLD dword built from values decodes to those values, masked, in whatever
      order the setters ran. */
  lemma PldEncodeThenDecode(d: nat, entries: seq<Entry>, order: seq<Entry>, k: nat)
    requires d < 5 && |entries| == |PLD[d]| && k < |entries|
    requires forall i :: 0 <= i < |entries| ==> entries[i].field == PLD[d][i]
    requires forall e :: e in order <==> e in entries
    ensures GetBits(Encode(0, order), PLD[d][k]) == entries[k].value % Pow2(PLD[d][k].width)
  {
    PldTiles(d);
    forall i | 0 <= i < |entries|
      ensures entries[i].field.pos + entries[i].field.width <= 32
    {
      TilesInside(PLD[d], 0, PldBits(d), i);
    }
    forall i, j | 0 <= i < j < |entries|
      ensures Disjoint(entries[i].field, entries[j].field)
    {
      TilesDisjoint(PLD[d], 0, PldBits(d), i, j);
    }
    EncodeOrderFree(0, order, entries);
    EncodeThenGet(entries, k);
    AndMask(entries[k].value, PLD[d][k].width);
  }

  /** Decoding a _PLD dword and encoding it again gives the word back, except for
      the four bits that dword 4 leaves undescribed. */
  lemma PldDecodeThenEncode(d: nat, word: nat)
    requires d < 5 && word < Pow2(32)
    ensures Encode(0, Decode(word, PLD[d])) == word % Pow2(PldBits(d))
    ensures d != 3 ==> Encode(0, Decode(word, PLD[d])) == word
  {
    PldTiles(d);
    DecodeThenEncode(word, PLD[d], PldBits(d));
    RemainderUnique(word, 0, word, Pow2(32));
  }

  // The getters by arithmetic --------------------------------------------------

  lemma GetBitsArithmetic(word: nat, f: Field)
    ensures GetBits(word, f) == word / Pow2(f.pos) % Pow2(f.width)
  {
    hide And, Shr, Mask, Pow2;
    AndMask(Shr(word, f.pos), f.width);
    ShrIsQuotient(word, f.pos);
  }

  lemma GetField(word: nat, f: Field, p: nat, m: nat)
    requires p == Pow2(f.pos) && m == Pow2(f.width)
    ensures GetBits(word, f) == word / p % m
  {
    hide GetBits, Pow2;
    GetBitsArithmetic(word, f);
  }

  lemma FieldPowers()
    ensures Pow2(0) == 1 && Pow2(1) == 2 && Pow2(2) == 4 && Pow2(3) == 8
    ensures Pow2(4) == 16 && Pow2(5) == 32 && Pow2(6) == 64 && Pow2(7) == 128
    ensures Pow2(8) == 256 && Pow2(10) == 1024 && Pow2(14) == 16384 && Pow2(15) == 32768
    ensures Pow2(16) == 0x1_0000 && Pow2(18) == 0x4_0000 && Pow2(19) == 0x8_0000 && Pow2(23) == 0x80_0000
    ensures Pow2(24) == 0x100_0000 && Pow2(31) == 0x8000_0000
  {
    assert Pow2(8) == 256 && Pow2(15) == 128 * Pow2(8);
    assert Pow2(16) == 0x1_0000 && Pow2(24) == 256 * Pow2(16);
  }

  /** The first dword: revision, ignore-color flag, red, green and blue. */
  lemma Dword1Fields(word: nat)
    ensures GetBits(word, PLD1[0]) == word % 128
    ensures GetBits(word, PLD1[1]) == word / 128 % 2
    ensures GetBits(word, PLD1[2]) == word / 256 % 256
    ensures GetBits(word, PLD1[3]) == word / 0x1_0000 % 256
    ensures GetBits(word, PLD1[4]) == word / 0x100_0000 % 256
  {
    hide GetBits, Pow2;
    FieldPowers();
    GetField(word, PLD1[0], 1, 128);
    GetField(word, PLD1[1], 128, 2);
    GetField(word, PLD1[2], 256, 256);
    GetField(word, PLD1[3], 0x1_0000, 256);
    GetField(word, PLD1[4], 0x100_0000, 256);
  }

  /** The second: width and height. */
  lemma Dword2Fields(word: nat)
    ensures GetBits(word, PLD2[0]) == word % 0x1_0000
    ensures GetBits(word, PLD2[1]) == word / 0x1_0000 % 0x1_0000
  {
    hide GetBits, Pow2;
    FieldPowers();
    GetField(word, PLD2[0], 1, 0x1_0000);
    GetField(word, PLD2[1], 0x1_0000, 0x1_0000);
  }

  /** The third: user-visible, dock and lid flags, panel, vertical and horizontal position. */
  lemma Dword3Fields(word: nat)
    ensures GetBits(word, PLD3[0]) == word % 2
    ensures GetBits(word, PLD3[1]) == word / 2 % 2
    ensures GetBits(word, PLD3[2]) == word / 4 % 2
    ensures GetBits(word, PLD3[3]) == word / 8 % 8
    ensures GetBits(word, PLD3[4]) == word / 64 % 4
    ensures GetBits(word, PLD3[5]) == word / 256 % 4
  {
    hide GetBits, Pow2;
    FieldPowers();
    GetField(word, PLD3[0], 1, 2);
    GetField(word, PLD3[1], 2, 2);
    GetField(word, PLD3[2], 4, 2);
    GetField(word, PLD3[3], 8, 8);
    GetField(word, PLD3[4], 64, 4);
    GetField(word, PLD3[5], 256, 4);
  }

  /** And shape, orientation, group token, group position and bay. */
  lemma Dword3MoreFields(word: nat)
    ensures GetBits(word, PLD3[6]) == word / 1024 % 16
    ensures GetBits(word, PLD3[7]) == word / 16384 % 2
    ensures GetBits(word, PLD3[8]) == word / 32768 % 256
    ensures GetBits(word, PLD3[9]) == word / 0x80_0000 % 256
    ensures GetBits(word, PLD3[10]) == word / 0x8000_0000 % 2
  {
    hide GetBits, Pow2;
    FieldPowers();
    GetField(word, PLD3[6], 1024, 16);
    GetField(word, PLD3[7], 16384, 2);
    GetField(word, PLD3[8], 32768, 256);
    GetField(word, PLD3[9], 0x80_0000, 256);
    GetField(word, PLD3[10], 0x8000_0000, 2);
  }

  /** The fourth: ejectable and OSPM-eject flags, cabinet, card cage, reference, rotation, order. */
  lemma Dword4Fields(word: nat)
    ensures GetBits(word, PLD4[0]) == word % 2
    ensures GetBits(word, PLD4[1]) == word / 2 % 2
    ensures GetBits(word, PLD4[2]) == word / 4 % 256
    ensures GetBits(word, PLD4[3]) == word / 1024 % 256
    ensures GetBits(word, PLD4[4]) == word / 0x4_0000 % 2
    ensures GetBits(word, PLD4[5]) == word / 0x8_0000 % 16
    ensures GetBits(word, PLD4[6]) == word / 0x80_0000 % 32
  {
    hide GetBits, Pow2;
    FieldPowers();
    GetField(word, PLD4[0], 1, 2);
    GetField(word, PLD4[1], 2, 2);
    GetField(word, PLD4[2], 4, 256);
    GetField(word, PLD4[3], 1024, 256);
    GetField(word, PLD4[4], 0x4_0000, 2);
    GetField(word, PLD4[5], 0x8_0000, 16);
    GetField(word, PLD4[6], 0x80_0000, 32);
  }

  /** The fifth: vertical and horizontal offset. */
  lemma Dword5Fields(word: nat)
    ensures GetBits(word, PLD5[0]) == word % 0x1_0000
    ensures GetBits(word, PLD5[1]) == word / 0x1_0000 % 0x1_0000
  {
    hide GetBits, Pow2;
    FieldPowers();
    GetField(word, PLD5[0], 1, 0x1_0000);
    GetField(word, PLD5[1], 0x1_0000, 0x1_0000);
  }

  // Packed argument lists -----------------------------------------------------

  /** ARG_(k+1)(c0) | ARG_(k+2)(c1) | ... with codes of w bits. */
  function Pack(codes: seq<nat>, w: nat, k: nat): nat {
    if codes == [] then 0 else Or(Shl(codes[0], k * w), Pack(codes[1..], w, k + 1))
  }

  function Reversed(s: seq<nat>): seq<nat> {
    if s == [] then [] else Reversed(s[1..]) + [s[0]]
  }

  const ARG_TYPE_WIDTH: nat := 5

  function ArgpList(codes: seq<nat>): nat {
    Pack(codes, ARG_TYPE_WIDTH, 0)
  }

  function ArgiList(codes: seq<nat>): nat {
    Pack(Reversed(codes), ARG_TYPE_WIDTH, 0)
  }

  /** n times GET_CURRENT_ARG_TYPE then INCREMENT_ARG_LIST. */
  function Walk(list: nat, w: nat, n: nat): seq<nat>
    decreases n
  {
    if n == 0 then [] else [And(list, Mask(w))] + Walk(Shr(list, w), w, n - 1)
  }

  function Zeros(n: nat): seq<nat> {
    seq(n, _ => 0)
  }

  ghost predicate AreCodes(codes: seq<nat>, w: nat) {
    forall c :: c in codes ==> c < Pow2(w)
  }

  lemma {:induction false} OrShl(x: nat, y: nat, k: nat)
    ensures Or(Shl(x, k), Shl(y, k)) == Shl(Or(x, y), k)
  {
    if k > 0 {
      OrShl(x, y, k - 1);
      var a, b := Shl(x, k - 1), Shl(y, k - 1);
      assert (2 * a) / 2 == a && (2 * b) / 2 == b;
    }
  }

  lemma {:induction false} ShlTwice(x: nat, i: nat, j: nat)
    ensures Shl(Shl(x, i), j) == Shl(x, i + j)
  {
    if j > 0 {
      ShlTwice(x, i, j - 1);
    }
  }

  lemma {:induction false} ShlZero(k: nat)
    ensures Shl(0, k) == 0
  {
    if k > 0 {
      ShlZero(k - 1);
    }
  }

  lemma {:induction false} PackShifts(codes: seq<nat>, w: nat, k: nat)
    ensures Pack(codes, w, k + 1) == Shl(Pack(codes, w, k), w)
  {
    if codes == [] {
      ShlZero(w);
    } else {
      PackShifts(codes[1..], w, k + 1);
      ShlTwice(codes[0], k * w, w);
      assert (k + 1) * w == k * w + w;
      OrShl(Shl(codes[0], k * w), Pack(codes[1..], w, k + 1), w);
    }
  }

  lemma PackHead(c: nat, list: nat, w: nat)
    requires c < Pow2(w)
    ensures And(Or(c, Shl(list, w)), Mask(w)) == c
    ensures Shr(Or(c, Shl(list, w)), w) == list
  {
    hide And, Or, Shl, Shr, Pow2;
    OrLow(c, list, w);
    ShlIsProduct(list, w);
    var x, p := Or(c, Shl(list, w)), Pow2(w);
    assert x == p * list + c;
    RemainderUnique(x, list, c, p);
    AndMask(x, w);
    ShrIsQuotient(x, w);
  }

  lemma {:induction false} WalkZero(w: nat, n: nat)
    ensures Walk(0, w, n) == Zeros(n)
  {
    if n > 0 {
      WalkZero(w, n - 1);
      ShrIsQuotient(0, w);
      RemainderUnique(0, 0, 0, Pow2(w));
    }
  }

  lemma PackCons(codes: seq<nat>, w: nat)
    requires codes != []
    ensures Pack(codes, w, 0) == Or(codes[0], Shl(Pack(codes[1..], w, 0), w))
  {
    PackShifts(codes[1..], w, 0);
    assert 0 * w == 0;
  }

  /** Walking a packed list yields the codes in order and then only zeros. */
  lemma {:induction false} WalkPack(codes: seq<nat>, w: nat, n: nat)
    requires AreCodes(codes, w) && |codes| <= n
    ensures Walk(Pack(codes, w, 0), w, n) == codes + Zeros(n - |codes|)
  {
    hide And, Or, Shl, Shr, Pow2;
    if codes == [] {
      WalkZero(w, n);
    } else {
      assert codes[0] in codes && forall c :: c in codes[1..] ==> c in codes;
      PackCons(codes, w);
      PackHead(codes[0], Pack(codes[1..], w, 0), w);
      WalkPack(codes[1..], w, n - 1);
      assert codes == [codes[0]] + codes[1..];
    }
  }

  /** n codes of w bits fit n * w bits, so nothing is lost in a 32-bit word. */
  lemma {:induction false} PackFits(codes: seq<nat>, w: nat)
    requires AreCodes(codes, w)
    ensures Pack(codes, w, 0) < Pow2(|codes| * w)
  {
    hide Or, Shl, Pow2;
    if codes != [] {
      assert codes[0] in codes && forall c :: c in codes[1..] ==> c in codes;
      PackFits(codes[1..], w);
      PackCons(codes, w);
      FitsAbove(codes[0], Pack(codes[1..], w, 0), w, (|codes| - 1) * w);
      assert (|codes| - 1) * w + w == |codes| * w;
    }
  }

  lemma FitsAbove(c: nat, list: nat, w: nat, m: nat)
    requires c < Pow2(w) && list < Pow2(m)
    ensures Or(c, Shl(list, w)) < Pow2(m + w)
  {
    hide Or, Shl, Pow2;
    OrLow(c, list, w);
    ShlIsProduct(list, w);
    Pow2Add(m, w);
    var p, q := Pow2(m), Pow2(w);
    assert (list + 1) * q <= p * q;
  }

  /** A list is a number in radix 32 whose digits are the codes, the first one lowest. */
  lemma PackArithmetic(codes: seq<nat>)
    requires AreCodes(codes, ARG_TYPE_WIDTH)
    ensures ArgpList([]) == 0
    ensures codes != [] ==> ArgpList(codes) == codes[0] + 32 * ArgpList(codes[1..])
  {
    hide Or, Shl;
    if codes != [] {
      assert codes[0] in codes;
      PackCons(codes, 5);
      OrLow(codes[0], ArgpList(codes[1..]), 5);
      ShlIsProduct(ArgpList(codes[1..]), 5);
      FieldPowers();
    }
  }

  /** One step of the walk reads the lowest digit and drops it. */
  lemma WalkArithmetic(list: nat, n: nat)
    requires n > 0
    ensures Walk(list, ARG_TYPE_WIDTH, n) == [list % 32] + Walk(list / 32, ARG_TYPE_WIDTH, n - 1)
  {
    hide And, Shr, Mask, Pow2;
    FieldPowers();
    AndMask(list, 5);
    ShrIsQuotient(list, 5);
  }

  lemma {:induction false} ReversedMembers(s: seq<nat>)
    ensures |Reversed(s)| == |s| && forall c :: c in Reversed(s) <==> c in s
    ensures forall i :: 0 <= i < |s| ==> Reversed(s)[i] == s[|s| - 1 - i]
  {
    if s != [] {
      ReversedMembers(s[1..]);
      assert forall c :: c in s <==> c == s[0] || c in s[1..];
    }
  }

  /** The parser's list comes out in order and the interpreter's reversed, each
      inside 32 bits. */
  lemma ArgListsWalk(codes: seq<nat>, n: nat)
    requires AreCodes(codes, ARG_TYPE_WIDTH) && |codes| <= 6 && |codes| <= n
    ensures Walk(ArgpList(codes), ARG_TYPE_WIDTH, n) == codes + Zeros(n - |codes|)
    ensures Walk(ArgiList(codes), ARG_TYPE_WIDTH, n) == Reversed(codes) + Zeros(n - |codes|)
    ensures ArgpList(codes) < Pow2(30) && ArgiList(codes) < Pow2(30)
  {
    ReversedMembers(codes);
    WalkPack(codes, ARG_TYPE_WIDTH, n);
    WalkPack(Reversed(codes), ARG_TYPE_WIDTH, n);
    PackFits(codes, ARG_TYPE_WIDTH);
    PackFits(Reversed(codes), ARG_TYPE_WIDTH);
    Pow2Monotone(|codes| * ARG_TYPE_WIDTH, 30);
  }
}
