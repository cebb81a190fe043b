// The kernel's panic screen: the disassembly window, a few instructions around the
// faulting address found by decoding forward from the start of its function, and the
// part of the stack trace that is shown.

module Panic {

  const KERNEL_VIRTUAL_BASE: nat := 0xC000_0000
  /** Lines shown when the function is known; half of it on either side of the fault. */
  const DUMP_LENGTH: nat := 7
  const HALF: nat := 3

  datatype Option<T> = None | Some(value: T)

  // The symbol table ----------------------------------------------------------

  /** r is the function that addr lies in: the last kernel symbol at or before it. */
  ghost predicate IsEnclosing(table: set<nat>, addr: nat, r: Option<nat>) {
    if r.None? then forall s :: s in table ==> s < KERNEL_VIRTUAL_BASE || addr < s
    else
      && r.value in table && KERNEL_VIRTUAL_BASE <= r.value <= addr
      && forall s :: s in table && s <= addr ==> s <= r.value
  }

  /** The last symbol strictly before addr. That is the function addr lies in, unless addr is
      itself a symbol: a fault at the very first instruction of a function is attributed to
      the function before it. */
  method GetFunction(table: set<nat>, addr: nat) returns (r: Option<nat>)
    ensures r.None? ==> forall s :: s in table ==> s < KERNEL_VIRTUAL_BASE || addr <= s
    ensures r.Some? ==> r.value in table && KERNEL_VIRTUAL_BASE <= r.value < addr
    ensures r.Some? ==> forall s :: s in table && s < addr ==> s <= r.value
    ensures IsEnclosing(table, addr, r) <==> addr !in table || addr < KERNEL_VIRTUAL_BASE
  {
    var a := addr;
    while a > KERNEL_VIRTUAL_BASE
      invariant a <= addr && forall s :: s in table && a <= s ==> addr <= s
    {
      a := a - 1;
      if a in table {
        return Some(a);
      }
    }
    return None;
  }

  /** The last symbol before the entry of the second function is the first function. */
  lemma EntryExample()
    ensures !IsEnclosing({0xC000_0000, 0xC000_0010}, 0xC000_0010, Some(0xC000_0000))
  {
  }

  // Instruction boundaries ----------------------------------------------------

  /** The size the disassembler reports at each address, 0 if no instruction starts there. */
  type Decoder = nat -> nat

  /** A byte that starts no instruction counts as one of length 1. */
  function Length(d: Decoder, p: nat): (n: nat)
    ensures n >= 1
  {
    if d(p) == 0 then 1 else d(p)
  }

  /** The n-th instruction boundary from p. */
  function Boundary(d: Decoder, p: nat, n: nat): nat {
    if n == 0 then p else var q := Boundary(d, p, n - 1); q + Length(d, q)
  }

  method NextIns(d: Decoder, p: nat, n: nat) returns (q: nat)
    ensures q == Boundary(d, p, n)
  {
    q := p;
    for i := 0 to n
      invariant q == Boundary(d, p, i)
    {
      q := q + Length(d, q);
    }
  }

  lemma {:induction false} BoundaryIncreases(d: Decoder, p: nat, i: nat, j: nat)
    requires i < j
    ensures Boundary(d, p, i) + (j - i) <= Boundary(d, p, j)
  {
    if i + 1 < j {
      BoundaryIncreases(d, p, i, j - 1);
    }
  }

  lemma {:induction false} BoundaryAdd(d: Decoder, p: nat, i: nat, j: nat)
    ensures Boundary(d, Boundary(d, p, i), j) == Boundary(d, p, i + j)
  {
    if j > 0 {
      BoundaryAdd(d, p, i, j - 1);
    }
  }

  /** The position, counted in instructions from start, at which the window opens: the
      first from which HALF instructions reach the fault. */
  ghost predicate Opens(d: Decoder, start: nat, eip: nat, w: nat) {
    && eip <= Boundary(d, start, w + HALF)
    && forall j: nat :: HALF <= j < w + HALF ==> Boundary(d, start, j) < eip
  }

  /** Aligns the window; it never runs past the fault. */
  method Align(d: Decoder, start: nat, eip: nat) returns (base: nat, ghost w: nat)
    requires start < eip
    ensures base == Boundary(d, start, w) && base < eip && Opens(d, start, eip, w)
  {
    hide Boundary;
    base, w := start, 0;
    assert base == Boundary(d, start, w) by { BoundaryStart(d, start); }
    var ahead := NextIns(d, base, HALF);
    BoundaryAdd(d, start, w, HALF);
    while ahead < eip
      invariant base == Boundary(d, start, w) && base < eip
      invariant ahead == Boundary(d, start, w + HALF)
      invariant forall j: nat :: HALF <= j < w + HALF ==> Boundary(d, start, j) < eip
      decreases eip - base
    {
      BoundaryIncreases(d, start, w, w + 1);
      BoundaryIncreases(d, start, w + 1, w + HALF);
      BoundaryAdd(d, start, w, 1);
      base := NextIns(d, base, 1);
      w := w + 1;
      ahead := NextIns(d, base, HALF);
      BoundaryAdd(d, start, w, HALF);
    }
  }

  lemma BoundaryStart(d: Decoder, p: nat)
    ensures Boundary(d, p, 0) == p
  {
  }

  // The lines shown -----------------------------------------------------------

  datatype Line = Line(address: nat, arrow: bool)

  ghost predicate Window(d: Decoder, base: nat, eip: nat, lines: seq<Line>) {
    forall i :: 0 <= i < |lines| ==>
      lines[i] == Line(Boundary(d, base, i), Boundary(d, base, i) == eip)
  }

  /** Each line follows the one above by the size of its instruction, a byte that starts none
      counting as one, and the arrow marks the fault. */
  ghost predicate Listing(d: Decoder, eip: nat, lines: seq<Line>) {
    && (forall i, j :: 0 <= i && i + 1 == j < |lines| ==>
          var a := lines[i].address; lines[j].address == a + if d(a) == 0 then 1 else d(a))
    && (forall i :: 0 <= i < |lines| ==> (lines[i].arrow <==> lines[i].address == eip))
  }

  lemma WindowLists(d: Decoder, base: nat, eip: nat, lines: seq<Line>)
    requires Window(d, base, eip, lines)
    ensures Listing(d, eip, lines) && (lines != [] ==> lines[0].address == base)
  {
    forall i, j | 0 <= i && i + 1 == j < |lines|
      ensures lines[j].address == lines[i].address + Length(d, lines[i].address)
    {
      assert Boundary(d, base, j) == Boundary(d, base, i) + Length(d, Boundary(d, base, i));
    }
  }

  method DumpFrom(d: Decoder, base: nat, eip: nat, length: nat) returns (lines: seq<Line>)
    ensures |lines| == length && Window(d, base, eip, lines)
  {
    var ip := base;
    lines := [];
    for i := 0 to length
      invariant |lines| == i && ip == Boundary(d, base, i) && Window(d, base, eip, lines)
    {
      lines := lines + [Line(ip, ip == eip)];
      ip := ip + Length(d, ip);
    }
  }

  ghost predicate IsBoundary(d: Decoder, start: nat, eip: nat, k: nat) {
    eip == Boundary(d, start, k)
  }

  ghost predicate MarkedOnlyAt(lines: seq<Line>, at: nat) {
    at < |lines| && forall i :: 0 <= i < |lines| ==> (lines[i].arrow <==> i == at)
  }

  ghost predicate Unmarked(lines: seq<Line>) {
    forall i :: 0 <= i < |lines| ==> !lines[i].arrow
  }

  function Min(a: nat, b: nat): nat { if a < b then a else b }

  /** If the fault is the k-th boundary of its function, the window opens HALF
      instructions before it, or at the function's start if there are fewer. */
  lemma OpensBefore(d: Decoder, start: nat, eip: nat, k: nat, w: nat)
    requires IsBoundary(d, start, eip, k) && Opens(d, start, eip, w)
    ensures w == if k < HALF then 0 else k - HALF
  {
    hide Boundary;
    if w + HALF < k {
      BoundaryIncreases(d, start, w + HALF, k);
    } else if w > 0 && k < w + HALF {
      var j: nat := w - 1 + HALF;
      assert Boundary(d, start, j) < eip;
      if k < j {
        BoundaryIncreases(d, start, k, j);
      }
    }
  }

  /** ... so it is marked exactly once, HALF lines down or at its own place. */
  lemma MarksBoundary(d: Decoder, start: nat, eip: nat, k: nat, w: nat, lines: seq<Line>)
    requires IsBoundary(d, start, eip, k) && Opens(d, start, eip, w)
    requires |lines| == DUMP_LENGTH && Window(d, Boundary(d, start, w), eip, lines)
    ensures MarkedOnlyAt(lines, Min(k, HALF))
  {
    hide Boundary, Opens;
    OpensBefore(d, start, eip, k, w);
    forall i | 0 <= i < |lines| ensures lines[i].arrow <==> i == Min(k, HALF) {
      BoundaryAdd(d, start, w, i);
      if w + i < k {
        BoundaryIncreases(d, start, w + i, k);
      } else if k < w + i {
        BoundaryIncreases(d, start, k, w + i);
      }
    }
  }

  lemma MarksNothingElse(d: Decoder, start: nat, eip: nat, w: nat, lines: seq<Line>)
    requires Window(d, Boundary(d, start, w), eip, lines)
    requires forall k: nat :: !IsBoundary(d, start, eip, k)
    ensures Unmarked(lines)
  {
    hide Boundary;
    forall i | 0 <= i < |lines| ensures !lines[i].arrow {
      BoundaryAdd(d, start, w, i);
      assert !IsBoundary(d, start, eip, w + i);
    }
  }

  /** With instructions of two bytes, an address in the middle of one is no boundary. */
  lemma {:induction false} MidInstruction(start: nat, k: nat)
    ensures Boundary(p => 2, start, k) == start + 2 * k
    ensures !IsBoundary(p => 2, start, start + 3, k)
  {
    if k > 0 {
      MidInstruction(start, k - 1);
    }
  }

  lemma MarksFirst(d: Decoder, eip: nat, lines: seq<Line>)
    requires 0 < |lines| && Window(d, eip, eip, lines)
    ensures MarkedOnlyAt(lines, 0)
  {
    hide Boundary;
    BoundaryStart(d, eip);
    forall i | 0 < i < |lines| ensures !lines[i].arrow {
      BoundaryIncreases(d, eip, 0, i);
    }
  }

  /** What the panic screen promises about a fault at eip. */
  method PrintDisassembly(mapped: bool, table: set<nat>, d: Decoder, eip: nat)
    returns (lines: seq<Line>, f: Option<nat>, ghost w: nat)
    ensures !mapped ==> lines == []
    ensures Listing(d, eip, lines)
    ensures f.Some? ==> f.value in table && 0xC000_0000 <= f.value < eip
                        && forall s :: s in table && s < eip ==> s <= f.value
    ensures mapped && f.Some? ==>
              && |lines| == 7 && lines[0].address == Boundary(d, f.value, w) < eip
              && Opens(d, f.value, eip, w) && Window(d, Boundary(d, f.value, w), eip, lines)
    ensures mapped && f.Some? ==> forall k: nat :: IsBoundary(d, f.value, eip, k) ==> MarkedOnlyAt(lines, Min(k, 3))
    ensures mapped && f.Some? && (forall k: nat :: !IsBoundary(d, f.value, eip, k)) ==> Unmarked(lines)
    ensures mapped && f.None? ==>
              && |lines| == 3 && lines[0].address == eip && Window(d, eip, eip, lines) && MarkedOnlyAt(lines, 0)
              && forall s :: s in table ==> s < 0xC000_0000 || eip <= s
  {
    hide Boundary, Opens, Window;
    if !mapped {
      return [], None, 0;
    }
    w := 0;
    f := GetFunction(table, eip);
    if f.None? {
      lines := DumpFrom(d, eip, eip, DUMP_LENGTH / 2);
      MarksFirst(d, eip, lines);
      WindowLists(d, eip, eip, lines);
    } else {
      var base;
      base, w := Align(d, f.value, eip);
      lines := DumpFrom(d, base, eip, DUMP_LENGTH);
      WindowLists(d, base, eip, lines);
      forall k: nat | IsBoundary(d, f.value, eip, k) ensures MarkedOnlyAt(lines, Min(k, HALF)) {
        MarksBoundary(d, f.value, eip, k, w, lines);
      }
      if forall k: nat :: !IsBoundary(d, f.value, eip, k) {
        MarksNothingElse(d, f.value, eip, w, lines);
      }
    }
  }

  // The stack trace -----------------------------------------------------------

  datatype Frame = Frame(address: nat, symbol: Option<nat>)

  /** Addresses of the code the trace is cut at. */
  datatype Landmarks = Landmarks(isrStub: nat, irqStub: nat, panic: nat, kmain: nat)

  datatype Place = Named(symbol: nat) | Userspace | Unknown
  datatype Entry = Entry(number: nat, address: nat, place: Place)

  predicate IsHandler(m: Landmarks, f: Frame) {
    f.address == m.isrStub + 31 || f.address == m.irqStub + 31 || f.symbol == Some(m.panic)
  }

  /** The frames of the fault handling end before from: the last of them, and no earlier one,
      returns to just behind the call in an interrupt stub, or is panic itself. */
  ghost predicate StartsBehindHandlers(m: Landmarks, trace: seq<Frame>, from: nat) {
    && from <= |trace|
    && (forall i :: 0 <= i < |trace| && (from == 0 || i + 1 < from) ==>
          && trace[i].address != m.isrStub + 31 && trace[i].address != m.irqStub + 31
          && trace[i].symbol != Some(m.panic))
    && (from > 0 ==>
          var f := trace[from - 1];
          f.symbol == Some(m.panic) || f.address - 31 == m.isrStub || f.address - 31 == m.irqStub)
  }

  method TraceOffset(m: Landmarks, trace: seq<Frame>) returns (offset: nat)
    ensures StartsBehindHandlers(m, trace, offset)
  {
    offset := 0;
    while offset < |trace| && !IsHandler(m, trace[offset])
      invariant offset <= |trace| && forall i :: 0 <= i < offset ==> !IsHandler(m, trace[i])
    {
      offset := offset + 1;
    }
    if offset == |trace| {
      offset := 0;
    } else {
      offset := offset + 1;
    }
  }

  function PlaceOf(f: Frame): Place {
    if f.symbol.Some? then Named(f.symbol.value)
    else if f.address < KERNEL_VIRTUAL_BASE then Userspace
    else Unknown
  }

  /** A frame is shown by its symbol; without one, by the half of memory it lies in. */
  ghost predicate IsPlace(f: Frame, place: Place) {
    match place
    case Named(symbol) => f.symbol == Some(symbol)
    case Userspace => f.symbol == None && f.address < 0xC000_0000
    case Unknown => f.symbol == None && f.address >= 0xC000_0000
  }

  /** Frames from..to of the trace are shown in order, numbered from 1, and the part
      shown ends at kmain or with the trace. */
  ghost predicate Shows(m: Landmarks, trace: seq<Frame>, from: nat, to: nat, entries: seq<Entry>) {
    && from <= to <= |trace| && |entries| == to - from
    && (forall i :: 0 <= i < |entries| ==>
          && entries[i].number == i + 1 && entries[i].address == trace[from + i].address
          && IsPlace(trace[from + i], entries[i].place))
    && (forall i :: from <= i < to ==> trace[i].symbol != Some(m.kmain))
    && (to < |trace| ==> trace[to].symbol == Some(m.kmain))
  }

  method PrintStackSymbols(m: Landmarks, trace: seq<Frame>) returns (entries: seq<Entry>, from: nat, to: nat)
    ensures Shows(m, trace, from, to, entries)
    ensures StartsBehindHandlers(m, trace, from)
  {
    from := TraceOffset(m, trace);
    to := from;
    entries := [];
    while to < |trace|
      invariant from <= to <= |trace| && |entries| == to - from
      invariant forall i :: 0 <= i < |entries| ==>
                  entries[i] == Entry(i + 1, trace[from + i].address, PlaceOf(trace[from + i]))
      invariant forall i :: from <= i < to ==> trace[i].symbol != Some(m.kmain)
    {
      var frame := trace[to];
      if frame.symbol.Some? && frame.symbol.value == m.kmain {
        return;
      }
      entries := entries + [Entry(to - from + 1, frame.address, PlaceOf(frame))];
      to := to + 1;
    }
  }
}
