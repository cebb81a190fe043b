// What a heap's history leaves behind in memory: which headers and notes can still be
// read, and when freeing a pointer a second time is noticed.

module HeapHistory {
  import opened HeapLayout
  import opened HeapMemory

  datatype HeapEvent = Placed(base: Addr, chunk: Chunk) | Freed(chunk: Chunk) | Released(block: Block)

  function StepMagics(m: map<Addr, nat>, e: HeapEvent): map<Addr, nat> {
    match e
    case Placed(_, c) => Uncovered(m, MAGIC_OFFSET, WORD_SIZE, c)[c.addr := MAGIC]
    case Freed(c) => if c.addr in m then m[c.addr := DEAD] else m
    case Released(b) => Outside(m, MAGIC_OFFSET, WORD_SIZE, b.base, b.End())
  }

  function StepNotes(m: map<Addr, nat>, e: HeapEvent): map<Addr, nat> {
    match e
    case Placed(_, c) => Uncovered(m, 0, WORD_SIZE, c)[c.Note() := c.pad]
    case Freed(_) => m
    case Released(b) => Outside(m, 0, WORD_SIZE, b.base, b.End())
  }

  /** The magic words that are known for certain after a history, whatever callers write
      into their bytes. */
  function MagicsAfter(events: seq<HeapEvent>): map<Addr, nat> {
    if events == [] then map[]
    else StepMagics(MagicsAfter(events[..|events| - 1]), events[|events| - 1])
  }

  function NotesAfter(events: seq<HeapEvent>): map<Addr, nat> {
    if events == [] then map[]
    else StepNotes(NotesAfter(events[..|events| - 1]), events[|events| - 1])
  }

  lemma AfterAppend(events: seq<HeapEvent>, e: HeapEvent)
    ensures MagicsAfter(events + [e]) == StepMagics(MagicsAfter(events), e)
    ensures NotesAfter(events + [e]) == StepNotes(NotesAfter(events), e)
  {
    assert (events + [e])[..|events|] == events;
  }

  /** The header and the note of c are in place. */
  ghost predicate Stands(events: seq<HeapEvent>, c: Chunk) {
    && c.addr in MagicsAfter(events)
    && c.Note() in NotesAfter(events) && NotesAfter(events)[c.Note()] == c.pad
  }

  /** Chunks are placed whole and freed while they stand. */
  ghost predicate Honest(events: seq<HeapEvent>) {
    forall k :: 0 <= k < |events| ==>
      && (events[k].Placed? ==> ChunkOk(events[k].chunk))
      && (events[k].Freed? ==> Stands(events[..k], events[k].chunk))
  }

  lemma HonestAppend(events: seq<HeapEvent>, e: HeapEvent)
    requires Honest(events)
    requires e.Placed? ==> ChunkOk(e.chunk)
    requires e.Freed? ==> Stands(events, e.chunk)
    ensures Honest(events + [e])
  {
    hide Stands, ChunkOk;
    var all := events + [e];
    forall k | 0 <= k < |all|
      ensures all[k].Placed? ==> ChunkOk(all[k].chunk)
      ensures all[k].Freed? ==> Stands(all[..k], all[k].chunk)
    {
      if k < |events| {
        assert all[k] == events[k] && all[..k] == events[..k];
      } else {
        assert all[..k] == events;
      }
    }
  }

  /** What can be read in memory is what the history left there. */
  ghost predicate Matches(events: seq<HeapEvent>, mem: Memory) {
    Honest(events) && mem.magics == MagicsAfter(events) && mem.notes == NotesAfter(events)
  }

  lemma MatchesPlaced(events: seq<HeapEvent>, mem: Memory, b: Block, j: nat, c: Chunk)
    requires Matches(events, mem) && j <= |b.chunks| && ChunkOk(c)
    ensures Matches(events + [Placed(b.base, c)], Place(mem, b, j, c))
  {
    hide Honest, MagicsAfter, NotesAfter, Uncovered, Outside;
    HonestAppend(events, Placed(b.base, c));
    AfterAppend(events, Placed(b.base, c));
  }

  lemma MatchesFreed(events: seq<HeapEvent>, mem: Memory, b: Block, j: nat)
    requires Matches(events, mem) && j < |b.chunks| && ChunkStored(b, b.chunks[j], mem)
    ensures Matches(events + [Freed(b.chunks[j])], Take(mem, b, j))
  {
    hide Honest, MagicsAfter, NotesAfter;
    HonestAppend(events, Freed(b.chunks[j]));
    AfterAppend(events, Freed(b.chunks[j]));
  }

  lemma MatchesReleased(events: seq<HeapEvent>, mem: Memory, v: View, i: nat)
    requires Matches(events, mem) && i < |v|
    ensures Matches(events + [Released(v[i])], DropBlock(mem, v, i))
  {
    hide Honest, MagicsAfter, NotesAfter, Uncovered, Outside;
    HonestAppend(events, Released(v[i]));
    AfterAppend(events, Released(v[i]));
  }

  // What can be read, by the history alone ------------------------------------

  /** The event writes some of these bytes or makes them someone else's: a new chunk's
      header or note is written there, or its caller may write there, or their block goes
      back to the system. */
  predicate Touches(e: HeapEvent, a: Addr, width: nat) {
    match e
    case Placed(_, c) => Covers(c, a, width)
    case Freed(_) => false
    case Released(b) => b.base < a + width && a < b.End()
  }

  ghost predicate Untouched(events: seq<HeapEvent>, a: Addr, width: nat) {
    forall k :: 0 <= k < |events| ==> !Touches(events[k], a, width)
  }

  lemma UntouchedSplit(xs: seq<HeapEvent>, ys: seq<HeapEvent>, a: Addr, width: nat)
    ensures Untouched(xs + ys, a, width) <==> Untouched(xs, a, width) && Untouched(ys, a, width)
  {
    if Untouched(xs + ys, a, width) {
      assert forall k :: 0 <= k < |xs| ==> (xs + ys)[k] == xs[k];
      assert forall k :: 0 <= k < |ys| ==> (xs + ys)[|xs| + k] == ys[k];
    }
  }

  /** Event k freed a chunk headed at a, and its magic word has been left alone since. */
  ghost predicate DiedAt(events: seq<HeapEvent>, k: nat, a: Addr) {
    && k < |events| && events[k].Freed? && events[k].chunk.addr == a
    && Untouched(events[k + 1..], a + MAGIC_OFFSET, WORD_SIZE)
  }

  /** Event k placed a chunk headed at a whose padding is noted at n, and the note has been
      left alone since. */
  ghost predicate NotedAt(events: seq<HeapEvent>, k: nat, n: Addr, a: Addr) {
    && k < |events| && events[k].Placed? && events[k].chunk.addr == a && events[k].chunk.Note() == n
    && Untouched(events[k + 1..], n, WORD_SIZE)
  }

  ghost predicate HasDied(events: seq<HeapEvent>, a: Addr) {
    exists k :: DiedAt(events, k, a)
  }

  ghost predicate WasNoted(events: seq<HeapEvent>, n: Addr, a: Addr) {
    exists k :: NotedAt(events, k, n, a)
  }

  ghost predicate IsDead(events: seq<HeapEvent>, a: Addr) {
    a in MagicsAfter(events) && MagicsAfter(events)[a] == DEAD
  }

  /** The note at n leads to a. */
  ghost predicate Leads(events: seq<HeapEvent>, n: Addr, a: Addr) {
    n in NotesAfter(events) && a + MINOR_SIZE + NotesAfter(events)[n] == n
  }

  lemma DiedLater(events: seq<HeapEvent>, e: HeapEvent, a: Addr)
    ensures HasDied(events + [e], a) <==>
              (e.Freed? && e.chunk.addr == a) || (!Touches(e, a + MAGIC_OFFSET, WORD_SIZE) && HasDied(events, a))
  {
    var all := events + [e];
    forall k: nat | k < |events|
      ensures DiedAt(all, k, a) <==> DiedAt(events, k, a) && !Touches(e, a + MAGIC_OFFSET, WORD_SIZE)
    {
      assert all[k + 1..] == events[k + 1..] + [e];
      UntouchedSplit(events[k + 1..], [e], a + MAGIC_OFFSET, WORD_SIZE);
      assert Untouched([e], a + MAGIC_OFFSET, WORD_SIZE) <==> !Touches([e][0], a + MAGIC_OFFSET, WORD_SIZE);
    }
    assert all[|events| + 1..] == [];
    assert DiedAt(all, |events|, a) <==> e.Freed? && e.chunk.addr == a;
  }

  lemma NotedLater(events: seq<HeapEvent>, e: HeapEvent, n: Addr, a: Addr)
    ensures WasNoted(events + [e], n, a) <==>
              || (e.Placed? && e.chunk.addr == a && e.chunk.Note() == n)
              || (!Touches(e, n, WORD_SIZE) && WasNoted(events, n, a))
  {
    var all := events + [e];
    forall k: nat | k < |events|
      ensures NotedAt(all, k, n, a) <==> NotedAt(events, k, n, a) && !Touches(e, n, WORD_SIZE)
    {
      assert all[k + 1..] == events[k + 1..] + [e];
      UntouchedSplit(events[k + 1..], [e], n, WORD_SIZE);
      assert Untouched([e], n, WORD_SIZE) <==> !Touches([e][0], n, WORD_SIZE);
    }
    assert all[|events| + 1..] == [];
    assert NotedAt(all, |events|, n, a) <==> e.Placed? && e.chunk.addr == a && e.chunk.Note() == n;
  }

  lemma DeadStep(m: map<Addr, nat>, e: HeapEvent, a: Addr)
    ensures a in StepMagics(m, e) && StepMagics(m, e)[a] == DEAD <==>
              || (e.Freed? && e.chunk.addr == a && a in m)
              || (!Touches(e, a + MAGIC_OFFSET, WORD_SIZE) && a in m && m[a] == DEAD)
  {
  }

  lemma NoteStep(m: map<Addr, nat>, e: HeapEvent, n: Addr, a: Addr)
    requires e.Placed? ==> ChunkOk(e.chunk)
    ensures n in StepNotes(m, e) && a + MINOR_SIZE + StepNotes(m, e)[n] == n <==>
              || (e.Placed? && e.chunk.addr == a && e.chunk.Note() == n)
              || (!Touches(e, n, WORD_SIZE) && n in m && a + MINOR_SIZE + m[n] == n)
  {
  }

  lemma HonestLast(before: seq<HeapEvent>, e: HeapEvent)
    requires Honest(before + [e])
    ensures Honest(before) && (e.Placed? ==> ChunkOk(e.chunk)) && (e.Freed? ==> Stands(before, e.chunk))
  {
    var all := before + [e];
    HonestStart(all, |before|);
    assert all[|before|] == e && all[..|before|] == before;
  }

  /** A header is certain to read as dead exactly when some chunk there was freed and its
      magic word left alone since. */
  lemma {:induction false} DeadIff(events: seq<HeapEvent>, a: Addr)
    requires Honest(events)
    ensures IsDead(events, a) <==> HasDied(events, a)
    decreases |events|
  {
    if events != [] {
      var before, e := events[..|events| - 1], events[|events| - 1];
      assert events == before + [e];
      hide Honest, HasDied, MagicsAfter, NotesAfter, StepMagics, ChunkOk, Touches;
      HonestLast(before, e);
      DeadIff(before, a);
      DiedLater(before, e, a);
      AfterAppend(before, e);
      DeadStep(MagicsAfter(before), e, a);
    }
  }

  /** A note is certain to lead to a header exactly when a chunk there noted it and it was left alone
      since. */
  lemma {:induction false} NotedIff(events: seq<HeapEvent>, n: Addr, a: Addr)
    requires Honest(events)
    ensures Leads(events, n, a) <==> WasNoted(events, n, a)
    decreases |events|
  {
    if events != [] {
      var before, e := events[..|events| - 1], events[|events| - 1];
      assert events == before + [e];
      hide Honest, WasNoted, MagicsAfter, NotesAfter, StepNotes, ChunkOk, Touches, Stands;
      HonestLast(before, e);
      NotedIff(before, n, a);
      NotedLater(before, e, n, a);
      AfterAppend(before, e);
      NoteStep(NotesAfter(before), e, n, a);
    }
  }

  // Freeing twice -------------------------------------------------------------

  ghost predicate NothingPlacedAt(events: seq<HeapEvent>, a: Addr) {
    forall k :: 0 <= k < |events| && events[k].Placed? ==> events[k].chunk.addr != a
  }

  lemma ThereBefore(m: map<Addr, nat>, e: HeapEvent, a: Addr)
    requires a in StepMagics(m, e) && (e.Placed? ==> e.chunk.addr != a)
    ensures a in m && !Touches(e, a + MAGIC_OFFSET, WORD_SIZE)
  {
  }

  /** A header that is still there, and was not written anew, was left alone. */
  lemma {:induction false} StillThere(before: seq<HeapEvent>, more: seq<HeapEvent>, a: Addr)
    requires NothingPlacedAt(more, a) && a in MagicsAfter(before + more)
    ensures Untouched(more, a + MAGIC_OFFSET, WORD_SIZE)
    decreases |more|
  {
    if more == [] {
      assert before + more == before;
    } else {
      var init, e := more[..|more| - 1], more[|more| - 1];
      assert more == init + [e] && before + more == (before + init) + [e];
      hide MagicsAfter, StepMagics, Touches;
      AfterAppend(before + init, e);
      assert e.Placed? ==> e.chunk.addr != a;
      ThereBefore(MagicsAfter(before + init), e, a);
      StillThere(before, init, a);
    }
  }

  /** When a second free of c is certain to be noticed, after any history since the first:
      exactly if nothing was written over, and no caller was given, any byte of its magic
      word or its note, and its block has not been given back. Chunks placed at the very
      same address are excluded here; DeadIff and NotedIff cover them. */
  lemma SecondFreeNoticedIff(before: seq<HeapEvent>, c: Chunk, more: seq<HeapEvent>)
    requires Honest(before + [Freed(c)] + more) && NothingPlacedAt(more, c.addr)
    ensures var events := before + [Freed(c)] + more;
            IsDead(events, c.addr) && Leads(events, c.Note(), c.addr) <==>
              Untouched(more, c.addr + MAGIC_OFFSET, WORD_SIZE) && Untouched(more, c.Note(), WORD_SIZE)
  {
    hide Honest, MagicsAfter, NotesAfter, Touches, Untouched, Stands;
    var first := before + [Freed(c)];
    var events := first + more;
    FreedStood(before, c, more);
    DeadIff(events, c.addr);
    NotedIff(events, c.Note(), c.addr);
    if IsDead(events, c.addr) && Leads(events, c.Note(), c.addr) {
      StillThere(first, more, c.addr);
      var k :| NotedAt(events, k, c.Note(), c.addr);
      LaterPart(first, more, k, c.Note(), WORD_SIZE);
    } else if Untouched(more, c.addr + MAGIC_OFFSET, WORD_SIZE) && Untouched(more, c.Note(), WORD_SIZE) {
      assert events[|before| + 1..] == more;
      assert DiedAt(events, |before|, c.addr);
      StaysNoted(before, c, more);
    }
  }

  lemma FreedStood(before: seq<HeapEvent>, c: Chunk, more: seq<HeapEvent>)
    requires Honest(before + [Freed(c)] + more)
    ensures Stands(before, c)
  {
    var events := before + [Freed(c)] + more;
    assert events[|before|] == Freed(c) && events[..|before|] == before;
  }

  lemma LaterPart(first: seq<HeapEvent>, more: seq<HeapEvent>, k: nat, n: Addr, width: nat)
    requires k < |first + more| && Untouched((first + more)[k + 1..], n, width)
    ensures k < |first| ==> Untouched(more, n, width)
    ensures k >= |first| ==> (first + more)[k] in more
  {
    if k < |first| {
      assert (first + more)[k + 1..] == first[k + 1..] + more;
      UntouchedSplit(first[k + 1..], more, n, width);
    }
  }

  lemma StaysNoted(before: seq<HeapEvent>, c: Chunk, more: seq<HeapEvent>)
    requires Honest(before + [Freed(c)] + more) && Stands(before, c) && Untouched(more, c.Note(), WORD_SIZE)
    ensures WasNoted(before + [Freed(c)] + more, c.Note(), c.addr)
  {
    var events := before + [Freed(c)] + more;
    HonestStart(events, |before|);
    assert events[..|before|] == before;
    NotedIff(before, c.Note(), c.addr);
    assert Leads(before, c.Note(), c.addr);
    var k :| NotedAt(before, k, c.Note(), c.addr);
    assert events[k + 1..] == before[k + 1..] + ([Freed(c)] + more);
    UntouchedSplit([Freed(c)], more, c.Note(), WORD_SIZE);
    assert Untouched([Freed(c)], c.Note(), WORD_SIZE);
    UntouchedSplit(before[k + 1..], [Freed(c)] + more, c.Note(), WORD_SIZE);
    assert NotedAt(events, k, c.Note(), c.addr);
  }

  lemma HonestStart(events: seq<HeapEvent>, n: nat)
    requires Honest(events) && n <= |events|
    ensures Honest(events[..n])
  {
    var part := events[..n];
    forall k | 0 <= k < n
      ensures part[k].Placed? ==> ChunkOk(part[k].chunk)
      ensures part[k].Freed? ==> Stands(part[..k], part[k].chunk)
    {
      assert part[k] == events[k] && part[..k] == events[..k];
    }
  }

  /** The first free of the only chunk of a block gives the block back: the second reads
      a note and a header in memory that the heap no longer holds. */
  lemma ReleasedUnnoticed(before: seq<HeapEvent>, c: Chunk, b: Block)
    requires ChunkOk(c) && b.base <= c.addr && c.End() <= b.End()
    ensures var events := before + [Freed(c), Released(b)];
            c.addr !in MagicsAfter(events) && c.Note() !in NotesAfter(events)
  {
    assert before + [Freed(c), Released(b)] == (before + [Freed(c)]) + [Released(b)];
    AfterAppend(before + [Freed(c)], Released(b));
  }

  /** A chunk placed where c was and freed in turn makes the old pointer look dead again,
      although its bytes were handed out in between. */
  lemma ReusedLooksDead(before: seq<HeapEvent>, c: Chunk, base: Addr)
    requires ChunkOk(c)
    ensures var events := before + [Freed(c), Placed(base, c), Freed(c)];
            IsDead(events, c.addr) && Leads(events, c.Note(), c.addr)
  {
    var one, two := before + [Freed(c)], before + [Freed(c), Placed(base, c)];
    assert two == one + [Placed(base, c)] && before + [Freed(c), Placed(base, c), Freed(c)] == two + [Freed(c)];
    hide MagicsAfter, NotesAfter;
    AfterAppend(one, Placed(base, c));
    AfterAppend(two, Freed(c));
  }

  lemma StandsPlaced(events: seq<HeapEvent>, base: Addr, c: Chunk)
    ensures Stands(events + [Placed(base, c)], c)
  {
    hide MagicsAfter, NotesAfter;
    AfterAppend(events, Placed(base, c));
  }

  lemma StandsOn(events: seq<HeapEvent>, e: HeapEvent, c: Chunk)
    requires Stands(events, c)
    requires !Touches(e, c.addr + MAGIC_OFFSET, WORD_SIZE) && !Touches(e, c.Note(), WORD_SIZE)
    ensures Stands(events + [e], c)
  {
    hide MagicsAfter, NotesAfter;
    AfterAppend(events, e);
  }

  /** Placing c leaves the words that free reads of d alone. */
  predicate Spares(c: Chunk, d: Chunk) {
    !Covers(c, d.addr + MAGIC_OFFSET, WORD_SIZE) && !Covers(c, d.Note(), WORD_SIZE)
  }

  function ThreePlaced(base: Addr, a: Chunk, p: Chunk, k: Chunk): seq<HeapEvent> {
    [Placed(base, a)] + [Placed(base, p)] + [Placed(base, k)]
  }

  lemma ThreeStand(base: Addr, a: Chunk, p: Chunk, k: Chunk)
    requires ChunkOk(a) && ChunkOk(p) && ChunkOk(k) && Spares(p, a) && Spares(k, a) && Spares(k, p)
    ensures Honest(ThreePlaced(base, a, p, k) + [Freed(a)])
    ensures Stands(ThreePlaced(base, a, p, k) + [Freed(a)], p)
  {
    hide Stands, Honest, ChunkOk, Covers;
    var first: seq<HeapEvent> := [];
    var one := first + [Placed(base, a)];
    var two := one + [Placed(base, p)];
    var three := two + [Placed(base, k)];
    assert one == [Placed(base, a)];
    StandsPlaced(first, base, a);
    StandsOn(one, Placed(base, p), a);
    StandsOn(two, Placed(base, k), a);
    StandsPlaced(one, base, p);
    StandsOn(two, Placed(base, k), p);
    StandsOn(three, Freed(a), p);
    NoEvents();
    HonestAppend(first, Placed(base, a));
    HonestAppend(one, Placed(base, p));
    HonestAppend(two, Placed(base, k));
    HonestAppend(three, Freed(a));
  }

  /** The first two are freed, and q goes where it spares what free reads of the second. */
  lemma StillNoticed(base: Addr, a: Chunk, p: Chunk, k: Chunk, q: Chunk)
    requires ChunkOk(a) && ChunkOk(p) && ChunkOk(k) && Spares(p, a) && Spares(k, a) && Spares(k, p)
    requires ChunkOk(q) && Spares(q, p) && q.addr != p.addr
    ensures var events := ThreePlaced(base, a, p, k) + [Freed(a)] + [Freed(p)] + [Placed(base, q)];
            Honest(events) && IsDead(events, p.addr) && Leads(events, p.Note(), p.addr)
  {
    hide Stands, Honest, ChunkOk, Covers, ThreePlaced;
    ThreeStand(base, a, p, k);
    var four := ThreePlaced(base, a, p, k) + [Freed(a)];
    HonestAppend(four, Freed(p));
    HonestAppend(four + [Freed(p)], Placed(base, q));
    SecondFreeNoticedIff(four, p, [Placed(base, q)]);
  }

  /** Three chunks of 100 bytes at the start of a block; the first two are freed, and one of
      108 bytes goes where the first was and ends inside the second's header. The second's
      magic word and note are beyond what that one's caller may write, so a second free of
      it is noticed. */
  lemma PartlyCovered()
    ensures var a, p := Chunk(0x1018, 120, 100, 0, 4), Chunk(0x10A8, 120, 100, 0, 4);
            var k, q := Chunk(0x1138, 120, 100, 0, 4), Chunk(0x1018, 128, 108, 0, 4);
            var events := ThreePlaced(0x1000, a, p, k) + [Freed(a)] + [Freed(p)] + [Placed(0x1000, q)];
            && BlockOk(Block(0x1000, 16, [q, k])) && p.addr < q.End() < p.addr + MINOR_SIZE
            && Honest(events) && IsDead(events, p.addr) && Leads(events, p.Note(), p.addr)
  {
    var a, p := Chunk(0x1018, 120, 100, 0, 4), Chunk(0x10A8, 120, 100, 0, 4);
    var k, q := Chunk(0x1138, 120, 100, 0, 4), Chunk(0x1018, 128, 108, 0, 4);
    hide Honest, IsDead, Leads, ThreePlaced;
    StillNoticed(0x1000, a, p, k, q);
  }

  lemma NoEvents()
    ensures Honest([])
  {
  }

  /** A chunk placed where p was, too small to reach p's note, takes over the header that p's
      pointer leads to: a second free of p frees that chunk. */
  lemma TakenOver(before: seq<HeapEvent>, p: Chunk, base: Addr, q: Chunk)
    requires Stands(before, p) && q.addr == p.addr && !Covers(q, p.Note(), WORD_SIZE)
    ensures var events := before + [Freed(p), Placed(base, q)];
            && q.addr in MagicsAfter(events) && MagicsAfter(events)[q.addr] == MAGIC
            && Leads(events, p.Note(), q.addr) && q.User() != p.User()
  {
    var freed := before + [Freed(p)];
    assert before + [Freed(p), Placed(base, q)] == freed + [Placed(base, q)];
    hide MagicsAfter, NotesAfter;
    AfterAppend(before, Freed(p));
    AfterAppend(freed, Placed(base, q));
  }

  lemma TakenOverRun(base: Addr, p: Chunk, k: Chunk, q: Chunk)
    requires Spares(k, p) && q.addr == p.addr && !Covers(q, p.Note(), WORD_SIZE)
    ensures var events := [Placed(base, p)] + [Placed(base, k)] + [Freed(p), Placed(base, q)];
            && q.addr in MagicsAfter(events) && MagicsAfter(events)[q.addr] == MAGIC
            && Leads(events, p.Note(), q.addr) && q.User() != p.User()
  {
    hide MagicsAfter, NotesAfter, Stands, Leads, Covers;
    StandsPlaced([], base, p);
    assert [] + [Placed(base, p)] == [Placed(base, p)];
    StandsOn([Placed(base, p)], Placed(base, k), p);
    TakenOver([Placed(base, p)] + [Placed(base, k)], p, base, q);
  }

  /** 10 bytes aligned to 256 at the start of a block with a chunk behind them; they are
      freed and 1 byte is placed there. The old pointer now leads to that byte's header. */
  lemma TakenOverExample()
    ensures var p, k := Chunk(0x1018, 282, 10, 192, 256), Chunk(0x114A, 21, 1, 2, 4);
            var q := Chunk(0x1018, 21, 1, 0, 4);
            var events := [Placed(0x1000, p)] + [Placed(0x1000, k)] + [Freed(p), Placed(0x1000, q)];
            && BlockOk(Block(0x1000, 16, [p, k])) && BlockOk(Block(0x1000, 16, [q, k]))
            && q.addr in MagicsAfter(events) && MagicsAfter(events)[q.addr] == MAGIC
            && Leads(events, p.Note(), q.addr) && q.User() != p.User()
  {
    hide MagicsAfter, Leads;
    TakenOverRun(0x1000, Chunk(0x1018, 282, 10, 192, 256), Chunk(0x114A, 21, 1, 2, 4), Chunk(0x1018, 21, 1, 0, 4));
  }
}
