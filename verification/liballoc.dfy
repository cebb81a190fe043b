// liballoc: malloc with alignment and free, on headers linked in memory.

module Liballoc {
  import opened Division
  import opened Bits
  import opened HeapLayout
  import opened Chains
  import opened HeapMemory
  import opened HeapHistory
  import opened HeapSearch

  /** A field of a header is written. */
  function SetNext(c: Chain, a: Addr, x: Addr): Chain {
    c.(next := c.next[a := x])
  }

  function SetPrev(c: Chain, a: Addr, x: Addr): Chain {
    c.(prev := c.prev[a := x])
  }

  /** The body size of a request, where the computation does not wrap. */
  function Body(req: nat, alignment: nat): nat {
    req + alignment + ALIGN_INFO
  }

  ghost predicate IsAlignment(alignment: nat) {
    exists k: nat :: k > 0 && alignment == Pow2(k)
  }

  /** The system may hand out this range of pages: it is fresh. Address 0 means
      that it has none. */
  ghost predicate Grantable(v: View, grant: Addr, pages: nat) {
    grant != 0 ==>
      && grant + pages * PAGE_SIZE < WORD
      && forall i :: 0 <= i < |v| ==> Apart(v[i], Block(grant, pages, []))
  }

  /** Both times the system may be asked while serving one request: for the first block of
      an empty heap, and for a block at the end of the list. */
  ghost predicate GrantsOk(v: View, rootGrant: Addr, grant: Addr, pages: nat) {
    && Grantable(v, rootGrant, pages) && Grantable(v, grant, pages)
    && (rootGrant != 0 ==> Grantable([Block(rootGrant, pages, [])], grant, pages))
  }

  /** The pages a new block needs. */
  method CountPages(size: nat) returns (st: nat)
    requires size < WORD
    ensures st == PagesFor(size) && st >= 16
    ensures size + 48 < 0x1_0000_0000 ==>
              st * 4096 >= size + 48 && forall k: nat :: k >= 16 && k * 4096 >= size + 48 ==> st <= k
    ensures size + 48 >= 0x1_0000_0000 ==> st == 16
  {
    st := (size + MAJOR_SIZE) % WORD;
    st := (st + MINOR_SIZE) % WORD;
    if st % PAGE_SIZE == 0 {
      st := st / PAGE_SIZE;
    } else {
      st := st / PAGE_SIZE + 1;
    }
    if st < PAGE_COUNT {
      st := PAGE_COUNT;
    }
    assert st == PagesFor(size);
    hide PagesFor;
    if size + MAJOR_SIZE + MINOR_SIZE < WORD {
      forall k: nat
        ensures k >= 16 && k * 4096 >= size + 48 ==> st <= k
      {
        PagesMeaning(size, k);
      }
      PagesMeaning(size, 0);
    } else {
      PagesWrapped(size);
    }
  }

  /** The padding that aligns what follows the alignment word. */
  method Align(u: Addr, alignment: nat) returns (p: Addr, pad: nat)
    requires IsAlignment(alignment)
    ensures pad < alignment && p == u + ALIGN_INFO + pad && p % alignment == 0
  {
    ghost var k :| k > 0 && alignment == Pow2(k);
    hide And, Pow2;
    p := u + ALIGN_INFO;
    AndMask(p, k);
    PadAligns(p, alignment);
    pad := And(p, alignment - 1);
    if pad != 0 {
      pad := alignment - pad;
      p := p + pad;
    }
  }

  lemma PadAligns(p: nat, alignment: nat)
    requires alignment > 0
    ensures (p + (alignment - p % alignment)) % alignment == 0
  {
    RemainderUnique(p + (alignment - p % alignment), p / alignment + 1, 0, alignment);
  }

  /** Why a chunk fits its request whatever the padding. */
  lemma MadeChunkOk(addr: Addr, req: nat, alignment: nat, pad: nat)
    requires alignment > 0 && pad < alignment && (addr + MINOR_SIZE + ALIGN_INFO + pad) % alignment == 0
    ensures ChunkOk(Chunk(addr, Body(req, alignment), req, pad, alignment))
  {
  }

  /** The size is the true size of the request, and gap j of b has room for it. */
  ghost predicate Roomy(b: Block, j: nat, size: nat, req: nat, alignment: nat) {
    && j <= |b.chunks| && size == Body(req, alignment)
    && GapStart(b, j) + MINOR_SIZE + size <= GapEnd(b, j)
  }

  /** c, made for this request, starts gap j of block i, whether or not there is room for
      it, and p is the pointer handed out. */
  ghost predicate PutAt(v: View, i: nat, j: nat, c: Chunk, p: Addr, size: nat, req: nat, alignment: nat) {
    && i < |v| && j <= |v[i].chunks| && c.addr == GapStart(v[i], j) && c.pad < alignment && p % alignment == 0
    && c.User() == p && c.size == size && c.req == req && c.align == alignment
  }

  /** w is v with chunk c, made for this request, placed in gap j of block i, and
      p is the pointer handed out. */
  ghost predicate PlacedAt(v: View, w: View, i: nat, j: nat, c: Chunk, p: Addr, size: nat, req: nat, alignment: nat) {
    && i < |v| && Placeable(v[i], j, c) && w == v[i := Insert(v[i], j, c)]
    && c.User() == p && c.size == size && c.req == req && c.align == alignment
  }

  /** What placing a chunk does to the heap as a whole. */
  lemma AfterPlace(v: View, i: nat, j: nat, c: Chunk, mem: Memory)
    requires HeapOk(v) && HeapStored(v, mem) && i < |v| && Placeable(v[i], j, c)
    ensures var w := v[i := Insert(v[i], j, c)];
            && HeapOk(w) && HeapStored(w, Place(mem, v[i], j, c))
            && Bases(w) == Bases(v) && TotalSize(w) == TotalSize(v) && TotalInUse(w) == TotalInUse(v) + c.size
            && Live(w) == Live(v) + {c} && c !in Live(v)
  {
    hide HeapOk, HeapStored, BlockOk, ChunkOk, Place, SizeSum, TotalSize, TotalInUse;
    PlaceOk(v, i, j, c, mem);
    PlacedInside(v[i], j, c);
    TotalsReplace(v, i, Insert(v[i], j, c));
    SizeSumInsert(v[i], j, c);
    LiveInsert(v, i, j, c);
    NotYetLive(v, i, j, c);
    assert Bases(v[i := Insert(v[i], j, c)]) == Bases(v);
  }

  lemma NotYetLive(v: View, i: nat, j: nat, c: Chunk)
    requires HeapOk(v) && i < |v| && Placeable(v[i], j, c)
    ensures c !in Live(v)
  {
    PlacedInside(v[i], j, c);
    InsideOne(v, i, c);
    hide HeapOk, Placeable;
    LiveByBlocks(v, c);
    assert forall k :: 0 <= k < |v[i].chunks| ==> Addrs(v[i])[k] == v[i].chunks[k].addr;
  }

  // The writes to the links in each case, in the order of the code -------------

  lemma LinkFirst(s: seq<Addr>, a: Addr, c: Chain)
    requires s == []
    ensures SetNext(SetPrev(c, a, 0), a, 0) == LinkIn(s, 0, a, c)
  {
  }

  lemma LinkFront(s: seq<Addr>, a: Addr, c: Chain)
    requires s != [] && a != s[0]
    ensures SetPrev(SetNext(SetPrev(c, s[0], a), a, s[0]), a, 0) == LinkIn(s, 0, a, c)
  {
  }

  lemma LinkLast(s: seq<Addr>, a: Addr, c: Chain)
    requires s != [] && a != s[|s| - 1]
    ensures SetNext(SetPrev(SetNext(c, s[|s| - 1], a), a, s[|s| - 1]), a, 0) == LinkIn(s, |s|, a, c)
  {
  }

  lemma LinkBetween(s: seq<Addr>, j: nat, a: Addr, c: Chain)
    requires 0 < j < |s| && a != s[j - 1] && a != s[j]
    ensures SetNext(SetPrev(SetPrev(SetNext(c, a, s[j]), a, s[j - 1]), s[j], a), s[j - 1], a) == LinkIn(s, j, a, c)
  {
  }

  // The size test -------------------------------------------------------------

  /** The size is that of the request, and nothing wraps. */
  ghost predicate Sized(size: nat, req: nat, alignment: nat) {
    Fits(req, alignment) && size == Body(req, alignment)
  }

  /** A chunk was put into a gap that passed the test, and p handed out. */
  ghost predicate Handed(b: Block, j: nat, c: Chunk, p: Addr, size: nat, req: nat, alignment: nat) {
    && BlockOk(b) && Accepts(b, j, size) && c.addr == GapStart(b, j) && c.pad < alignment && p % alignment == 0
    && c.User() == p && c.size == size && c.req == req && c.align == alignment
  }

  /** A heap to search: no block is empty, unless it is the only one and new. */
  ghost predicate Clean(v: View, size: nat) {
    NoEmptyBlock(v) || (|v| == 1 && v[0].chunks == [] && v[0].pages == PagesFor(size))
  }

  /** The answer of the system that matters. */
  function Asked(v: View, rootGrant: Addr, grant: Addr): Addr {
    if v == [] then rootGrant else grant
  }

  lemma RoomyIfSized(b: Block, j: nat, size: nat, req: nat, alignment: nat)
    requires Sized(size, req, alignment) && BlockOk(b) && Accepts(b, j, size)
    ensures Roomy(b, j, size, req, alignment)
  {
    GapAtMostFree(b, j);
    if b.chunks == [] && b.pages == PagesFor(size) {
      PagesMeaning(size, 0);
    }
  }

  /** A new block has room for a request that does not wrap. */
  lemma NeverLeft(v: View, size: nat, req: nat, alignment: nat)
    requires Sized(size, req, alignment) && Clean(v, size)
    requires forall k :: 0 <= k < |v| ==> NoRoom(v[k], Need(size))
    ensures NoEmptyBlock(v)
  {
    hide PagesFor, Need, NoRoom;
    if !NoEmptyBlock(v) {
      BlankRoom(v[0], size, req, alignment);
    }
  }

  lemma BlankRoom(b: Block, size: nat, req: nat, alignment: nat)
    requires Sized(size, req, alignment) && b.chunks == [] && b.pages == PagesFor(size)
    ensures !NoRoom(b, Need(size))
  {
    PagesMeaning(size, 0);
    assert GapEnd(b, 0) >= GapStart(b, 0) + Need(size);
  }

  lemma BlankGap(b: Block)
    requires b.chunks == []
    ensures GapEnd(b, 0) - GapStart(b, 0) == FreeBytes(b)
  {
  }

  /** If some block passes the test, a new one does. */
  lemma NewBlockPasses(b: Block, size: nat, free: int, grant: Addr)
    requires size < WORD && BlockOk(b) && Need(size) <= free == FreeBytes(b)
    ensures FreeBytes(Block(grant, PagesFor(size), [])) >= Need(size)
  {
    if size + MAJOR_SIZE + MINOR_SIZE < WORD {
      PagesMeaning(size, 0);
    }
  }

  lemma BlankHeap(b: Block)
    requires b.chunks == []
    ensures Live([b]) == Live([]) && TotalInUse([b]) == TotalInUse([])
  {
    TotalsOne(b);
  }

  lemma AlignmentBound(alignment: nat)
    requires IsAlignment(alignment) && alignment < WORD
    ensures 1 < alignment <= 0x8000_0000
  {
    var k :| k > 0 && alignment == Pow2(k);
    hide Pow2;
    Pow2Values();
    Pow2Monotone(1, k);
    if k >= 32 {
      Pow2Monotone(32, k);
    } else {
      Pow2Monotone(k, 31);
    }
  }

  /** malloc(1), which stands in for a request whose size wraps to 0. */
  lemma SmallestRequest()
    ensures Fits(1, 4) && PagesFor(BodySize(1, 4)) == PagesFor(0) && Body(1, 4) == 21
  {
  }

  lemma HandedServes(b: Block, j: nat, c: Chunk, p: Addr, size: nat, req: nat, alignment: nat)
    requires Handed(b, j, c, p, size, req, alignment) && size == BodySize(req, alignment)
    requires req < WORD && alignment <= 0x8000_0000
    ensures BlockOk(b) && c.User() == p && c.size == size
    ensures Serves(b, c, req) <==> Fits(req, alignment)
  {
    hide BlockOk, PagesFor;
    ServesIffFits(b, j, c, req, alignment);
  }

  lemma FoundBy(v: View, bet: Addr, grant: Addr, size: nat, req: nat, alignment: nat,
                p: Addr, c: Chunk, b: Block, t: nat, j: nat, bet': Addr)
    requires IsResult(v, SearchOrder(v, bet, Need(size)), BetOf(v, bet), Need(size), size, grant, p, b, t, j, bet')
    requires p != 0 ==> Handed(b, j, c, p, size, req, alignment)
    ensures IsFound(v, bet, grant, size, alignment, p, c, b, t, j, bet')
  {
    hide IsResult, SearchOrder, BetOf, BlockOk;
  }

  /** The header of a new block. */
  function NewHeader(size: nat): Major {
    Major(PagesFor(size), PagesFor(size) * PAGE_SIZE, MAJOR_SIZE, 0)
  }

  class Heap {
    var mem: Memory
    var memRoot: Addr
    var bestBet: Addr
    var systemBytes: nat
    var inuse: nat
    ghost var view: View
    /** Everything that happened to chunks and their blocks. */
    ghost var events: seq<HeapEvent>

    ghost predicate Consistent()
      reads this
    {
      && HeapOk(view) && HeapStored(view, mem) && Matches(events, mem)
      && memRoot == At(Bases(view), 0)
      && (bestBet != 0 ==> bestBet in Bases(view))
      && systemBytes == TotalSize(view) && inuse == TotalInUse(view)
    }

    ghost predicate Valid()
      reads this
    {
      Consistent() && NoEmptyBlock(view)
    }

    constructor ()
      ensures Valid() && view == [] && Live(view) == {} && events == []
    {
      mem := Memory(Chain(map[], map[]), map[], Chain(map[], map[]), map[], map[], map[]);
      memRoot, bestBet, systemBytes, inuse := 0, 0, 0, 0;
      view, events := [], [];
    }

    /** Writes the header of a new block, unless the system has no pages. */
    method AllocateNewPage(size: nat, grant: Addr) returns (maj: Addr)
      requires size < WORD && (grant != 0 ==> PagesFor(size) * PAGE_SIZE < WORD)
      modifies this`mem, this`systemBytes
      ensures maj == grant
      ensures grant == 0 ==> mem == old(mem) && systemBytes == old(systemBytes)
      ensures grant != 0 ==>
                && mem == old(mem).(
                     majorLinks := SetNext(SetPrev(old(mem).majorLinks, grant, 0), grant, 0),
                     majors := old(mem).majors[grant := NewHeader(size)])
                && systemBytes == old(systemBytes) + PagesFor(size) * PAGE_SIZE
    {
      hide PagesFor;
      var st := CountPages(size);
      maj := grant;
      if maj == 0 {
        return;
      }
      mem := mem.(majorLinks := SetNext(SetPrev(mem.majorLinks, maj, 0), maj, 0));
      mem := mem.(majors := mem.majors[maj := Major(st, st * PAGE_SIZE % WORD, MAJOR_SIZE, 0)]);
      systemBytes := systemBytes + mem.majors[maj].size;
    }

    /** If there was room, the chunk is placed, the heap consistent and the event added to
        the history past. */
    ghost predicate Kept(v: View, past: seq<HeapEvent>, i: nat, j: nat, c: Chunk, p: Addr,
                         size: nat, req: nat, alignment: nat)
      requires i < |v|
      reads this
    {
      Roomy(v[i], j, size, req, alignment) ==>
        && Consistent() && PlacedAt(v, view, i, j, c, p, size, req, alignment)
        && events == past + [Placed(v[i].base, c)]
    }

    /** All is as it was in memory before, but for the links to a new header at a. */
    ghost predicate Linked(before: Memory, maj: Addr, a: Addr, i: nat, j: nat)
      reads this
    {
      && HeapOk(view) && HeapStored(view, before) && Matches(events, before)
      && i < |view| && j <= |view[i].chunks| && maj in before.majors
      && var header := before.majors[maj];
      && mem == before.(minorLinks := LinkIn(Addrs(view[i]), j, a, before.minorLinks),
                        majors := before.majors[maj := header.(first := if j == 0 then a else header.first)])
      && memRoot == At(Bases(view), 0) && (bestBet != 0 ==> bestBet in Bases(view))
      && systemBytes == TotalSize(view) && inuse == TotalInUse(view)
    }

    /** The end of cases 2 to 4, once the new header at a is linked in: its other
        fields, the block's usage, and the aligned pointer with its padding noted. */
    method Finish(maj: Addr, a: Addr, size: nat, req: nat, alignment: nat,
                  ghost before: Memory, ghost i: nat, ghost j: nat)
      returns (p: Addr, ghost c: Chunk)
      requires IsAlignment(alignment) && maj in mem.majors
      requires i < |view| && view[i].base == maj && j <= |view[i].chunks| && a == GapStart(view[i], j)
      requires Roomy(view[i], j, size, req, alignment) ==> Linked(before, maj, a, i, j)
      modifies this`mem, this`inuse, this`view, this`events
      ensures PutAt(old(view), i, j, c, p, size, req, alignment)
      ensures Kept(old(view), old(events), i, j, c, p, size, req, alignment)
    {
      hide HeapOk, BlockOk, ChunkOk, HeapStored, TotalSize, TotalInUse, IsAlignment, LinkIn, Addrs, Bases, ChunkBytes,
        Matches, Uncovered;
      ghost var b, room := view[i], Roomy(view[i], j, size, req, alignment);
      if room {
        StoredHeader(view, i, before);
      }
      mem := mem.(majors := mem.majors[maj := mem.majors[maj].(usage := mem.majors[maj].usage + size + MINOR_SIZE)]);
      inuse := inuse + size;
      var pad;
      p, pad := Align(a + MINOR_SIZE, alignment);
      var chunk := Chunk(a, size, req, pad, alignment);
      mem := mem.(minors := Uncovered(mem.minors, 0, MINOR_SIZE, chunk)[a := Minor(maj, size, req)],
                  magics := Uncovered(mem.magics, MAGIC_OFFSET, WORD_SIZE, chunk)[a := MAGIC],
                  notes := Uncovered(mem.notes, 0, WORD_SIZE, chunk)[p - ALIGN_INFO := pad]);
      c := chunk;
      if room {
        MadeChunkOk(a, req, alignment, pad);
        assert mem == Place(before, b, j, c);
        AfterPlace(view, i, j, c, before);
        MatchesPlaced(events, before, b, j, c);
        events := events + [Placed(maj, c)];
        view := view[i := Insert(b, j, c)];
      }
    }

    /** Case 2: the block is brand new. */
    method PlaceFirst(maj: Addr, size: nat, req: nat, alignment: nat, ghost i: nat) returns (p: Addr, ghost c: Chunk)
      requires Consistent() && IsAlignment(alignment)
      requires i < |view| && view[i].base == maj && view[i].chunks == []
      modifies this`mem, this`inuse, this`view, this`events
      ensures PutAt(old(view), i, 0, c, p, size, req, alignment)
      ensures Kept(old(view), old(events), i, 0, c, p, size, req, alignment)
    {
      hide HeapOk, HeapStored, TotalSize, TotalInUse, IsAlignment, LinkIn, Addrs, Bases, PlacedAt, Matches;
      StoredHeader(view, i, mem);
      var first := maj + MAJOR_SIZE;
      mem := mem.(majors := mem.majors[maj := mem.majors[maj].(first := first)]);
      mem := mem.(minorLinks := SetNext(SetPrev(mem.minorLinks, first, 0), first, 0));
      LinkFirst(Addrs(view[i]), first, old(mem).minorLinks);
      p, c := Finish(maj, first, size, req, alignment, old(mem), i, 0);
    }

    /** Case 3: there is room in front of the first chunk. */
    method PlaceFront(maj: Addr, size: nat, req: nat, alignment: nat, ghost i: nat) returns (p: Addr, ghost c: Chunk)
      requires Consistent() && IsAlignment(alignment)
      requires i < |view| && view[i].base == maj && view[i].chunks != []
      modifies this`mem, this`inuse, this`view, this`events
      ensures PutAt(old(view), i, 0, c, p, size, req, alignment)
      ensures Kept(old(view), old(events), i, 0, c, p, size, req, alignment)
    {
      hide HeapOk, HeapStored, TotalSize, TotalInUse, IsAlignment, LinkIn, Addrs, Bases, PlacedAt, Matches;
      StoredHeader(view, i, mem);
      AddrsAt(view[i], 0);
      var head := mem.majors[maj].first;
      var first := maj + MAJOR_SIZE;
      mem := mem.(minorLinks := SetPrev(mem.minorLinks, head, first));
      mem := mem.(minorLinks := SetNext(mem.minorLinks, first, head));
      mem := mem.(majors := mem.majors[maj := mem.majors[maj].(first := first)]);
      mem := mem.(minorLinks := SetPrev(mem.minorLinks, first, 0));
      if Roomy(view[i], 0, size, req, alignment) {
        LinkFront(Addrs(view[i]), first, old(mem).minorLinks);
      }
      p, c := Finish(maj, first, size, req, alignment, old(mem), i, 0);
    }

    /** Case 4.1: there is room behind the last chunk. */
    method PlaceLast(maj: Addr, min: Addr, size: nat, req: nat, alignment: nat, ghost i: nat, ghost j: nat)
      returns (p: Addr, ghost c: Chunk)
      requires Consistent() && IsAlignment(alignment)
      requires i < |view| && view[i].base == maj && j + 1 == |view[i].chunks| && view[i].chunks[j].addr == min
      modifies this`mem, this`inuse, this`view, this`events
      ensures PutAt(old(view), i, j + 1, c, p, size, req, alignment)
      ensures Kept(old(view), old(events), i, j + 1, c, p, size, req, alignment)
    {
      hide HeapOk, HeapStored, TotalSize, TotalInUse, IsAlignment, LinkIn, Addrs, Bases, PlacedAt, Matches;
      StoredHeader(view, i, mem);
      StoredChunk(view, i, j, mem);
      AddrsAt(view[i], j);
      var newMin := min + MINOR_SIZE + mem.minors[min].size;
      mem := mem.(minorLinks := SetNext(mem.minorLinks, min, newMin));
      mem := mem.(minorLinks := SetPrev(mem.minorLinks, newMin, min));
      mem := mem.(minorLinks := SetNext(mem.minorLinks, newMin, 0));
      LinkLast(Addrs(view[i]), newMin, old(mem).minorLinks);
      p, c := Finish(maj, newMin, size, req, alignment, old(mem), i, j + 1);
    }

    /** Case 4.2: there is room between two chunks. */
    method PlaceBetween(maj: Addr, min: Addr, size: nat, req: nat, alignment: nat, ghost i: nat, ghost j: nat)
      returns (p: Addr, ghost c: Chunk)
      requires Consistent() && IsAlignment(alignment)
      requires i < |view| && view[i].base == maj && j + 1 < |view[i].chunks| && view[i].chunks[j].addr == min
      modifies this`mem, this`inuse, this`view, this`events
      ensures PutAt(old(view), i, j + 1, c, p, size, req, alignment)
      ensures Kept(old(view), old(events), i, j + 1, c, p, size, req, alignment)
    {
      hide HeapOk, HeapStored, TotalSize, TotalInUse, IsAlignment, LinkIn, Addrs, Bases, PlacedAt, Matches;
      StoredHeader(view, i, mem);
      StoredChunk(view, i, j, mem);
      AddrsAt(view[i], j);
      AddrsAt(view[i], j + 1);
      var newMin := min + MINOR_SIZE + mem.minors[min].size;
      var next := mem.minorLinks.next[min];
      mem := mem.(minorLinks := SetNext(mem.minorLinks, newMin, next));
      mem := mem.(minorLinks := SetPrev(mem.minorLinks, newMin, min));
      mem := mem.(minorLinks := SetPrev(mem.minorLinks, next, newMin));
      mem := mem.(minorLinks := SetNext(mem.minorLinks, min, newMin));
      if Roomy(view[i], j + 1, size, req, alignment) {
        LinkBetween(Addrs(view[i]), j + 1, newMin, old(mem).minorLinks);
      }
      p, c := Finish(maj, newMin, size, req, alignment, old(mem), i, j + 1);
    }

    /** Cases 3 and 4 on one block that holds chunks: the first gap that passes the size
        test, or null when there is none. */
    method TryBlock(maj: Addr, size: nat, req: nat, alignment: nat, ghost i: nat)
      returns (p: Addr, ghost j: nat, ghost c: Chunk)
      requires Consistent() && IsAlignment(alignment)
      requires i < |view| && view[i].base == maj && view[i].chunks != []
      modifies this`mem, this`inuse, this`view, this`events
      ensures p == 0 ==>
                && Consistent() && view == old(view) && mem == old(mem) && inuse == old(inuse) && events == old(events)
                && NoRoom(view[i], Need(size))
      ensures p != 0 ==> PutAt(old(view), i, j, c, p, size, req, alignment) && Accepts(old(view)[i], j, size)
      ensures p != 0 ==> IsFirstGap(old(view)[i], j, Need(size))
      ensures p != 0 ==> Kept(old(view), old(events), i, j, c, p, size, req, alignment)
    {
      hide HeapOk, BlockOk, ChunkOk, HeapStored, TotalSize, TotalInUse, IsAlignment, Addrs, Bases, PlacedAt, Matches,
        Need, Roomy;
      ghost var b := view[i];
      c := b.chunks[0];
      StoredHeader(view, i, mem);
      StoredChunk(view, i, 0, mem);
      AddrsAt(b, 0);
      GapAtMostFree(b, 0);
      var diff := mem.majors[maj].first - maj - MAJOR_SIZE;
      if diff >= Need(size) {
        p, c := PlaceFront(maj, size, req, alignment, i);
        j := 0;
        return;
      }
      var min := mem.majors[maj].first;
      j := 0;
      while min != 0
        invariant Consistent() && view == old(view) && mem == old(mem) && inuse == old(inuse) && events == old(events)
        invariant min != 0 ==> j < |b.chunks| && min == b.chunks[j].addr
        invariant min == 0 ==> j == |b.chunks|
        invariant forall l :: 0 <= l <= j && l <= |b.chunks| ==> GapEnd(b, l) < GapStart(b, l) + Need(size)
        decreases |b.chunks| - j
      {
        StoredChunk(view, i, j, mem);
        GapAtMostFree(b, j + 1);
        if mem.minorLinks.next[min] == 0 {
          LastByLink(b, j, view, i);
          diff := maj + mem.majors[maj].size - min - MINOR_SIZE - mem.minors[min].size;
          if diff >= Need(size) {
            p, c := PlaceLast(maj, min, size, req, alignment, i, j);
            j := j + 1;
            return;
          }
        } else {
          AddrsAt(b, j + 1);
          diff := mem.minorLinks.next[min] - min - MINOR_SIZE - mem.minors[min].size;
          if diff >= Need(size) {
            p, c := PlaceBetween(maj, min, size, req, alignment, i, j);
            j := j + 1;
            return;
          }
        }
        min := mem.minorLinks.next[min];
        j := j + 1;
      }
      p := 0;
    }

    /** A new block behind the last one, if the system has the pages. */
    method Grow(maj: Addr, size: nat, grant: Addr) returns (next: Addr)
      requires Consistent() && view != [] && maj == view[|view| - 1].base
      requires size < WORD && Grantable(view, grant, PagesFor(size))
      modifies this`mem, this`systemBytes, this`view
      ensures Consistent() && next == grant
      ensures grant == 0 ==> view == old(view) && mem == old(mem)
      ensures grant != 0 ==> view == old(view) + [Block(grant, PagesFor(size), [])]
    {
      hide HeapOk, HeapStored, TotalSize, TotalInUse, LinkIn, Bases, PagesFor;
      ghost var v := view;
      StoredHeader(view, |view| - 1, mem);
      BasesAt(view, |view| - 1);
      next := AllocateNewPage(size, grant);
      mem := mem.(majorLinks := SetNext(mem.majorLinks, maj, next));
      if next == 0 {
        assert mem == old(mem);
        return;
      }
      mem := mem.(majorLinks := SetPrev(mem.majorLinks, next, maj));
      ghost var b := Block(grant, PagesFor(size), []);
      FreshBlock(v, size, grant);
      LinkBlock(Bases(v), grant, old(mem).majorLinks);
      assert mem == AddBlock(old(mem), v, b);
      AfterGrow(v, b, old(mem));
      view := v + [b];
    }

    /** The first block of an empty heap, if the system has the pages. */
    method StartHeap(size: nat, grant: Addr)
      requires Consistent() && memRoot == 0
      requires size < WORD && Grantable(view, grant, PagesFor(size))
      modifies this`mem, this`systemBytes, this`view, this`memRoot
      ensures Consistent() && memRoot == grant && old(view) == [] && bestBet == 0
      ensures view == if grant == 0 then [] else [Block(grant, PagesFor(size), [])]
    {
      hide HeapOk, HeapStored, TotalSize, TotalInUse, LinkIn, PagesFor;
      EmptyByRoot(view);
      memRoot := AllocateNewPage(size, grant);
      if memRoot == 0 {
        return;
      }
      ghost var b := Block(grant, PagesFor(size), []);
      FreshBlock([], size, grant);
      LinkOnly([], grant, old(mem).majorLinks);
      assert Bases([]) == [];
      assert mem == AddBlock(old(mem), [], b);
      AfterGrow([], b, old(mem));
      assert [] + [b] == [b];
      view := [b];
    }

    /** Where the search goes from a block without room: to the next block; from the
        end of the list back to its start if it began at the best bet; else to a new
        block. Null means that the system has no pages left. */
    method Advance(maj: Addr, startedBet: bool, size: nat, grant: Addr, ghost i: nat)
      returns (next: Addr, bet: bool, grown: bool, ghost k: nat)
      requires Consistent() && i < |view| && maj == view[i].base
      requires size < WORD && Grantable(view, grant, PagesFor(size))
      modifies this`mem, this`systemBytes, this`view
      ensures Consistent()
      ensures grown ==>
                && !startedBet && !bet && i + 1 == k == |old(view)| && next == grant != 0
                && view == old(view) + [Block(grant, PagesFor(size), [])]
      ensures !grown ==> view == old(view)
      ensures !grown && next == 0 ==> !startedBet && i + 1 == |view| && grant == 0
      ensures !grown && next != 0 ==>
                && k < |view| && next == view[k].base
                && ((k == i + 1 && bet == startedBet) || (i + 1 == |view| && k == 0 && startedBet && !bet))
    {
      hide HeapOk, HeapStored, TotalSize, TotalInUse, Grantable, Bases, PagesFor;
      StoredHeader(view, i, mem);
      next, bet, grown, k := mem.majorLinks.next[maj], startedBet, false, i + 1;
      if next != 0 {
        BasesAt(view, i + 1);
        return;
      }
      LastBlock(view, i);
      if startedBet {
        BasesAt(view, 0);
        StoredHeader(view, 0, mem);
        next, bet, k := memRoot, false, 0;
        return;
      }
      next := Grow(maj, size, grant);
      grown := next != 0;
    }

    /** Where the search stands: at block i, the t-th in the order of the heap v it began
        with, or at the blank block that was added to it when no other passed the size test. */
    ghost predicate Searching(v: View, order: seq<nat>, size: nat, grant: Addr, t: nat, i: nat, grown: bool)
      reads this
    {
      && Consistent() && i < |view| && Indices(order, |v|) && t <= |order|
      && (if grown then
            t == |order| && i == |v| && grant != 0 && view == v + [Block(grant, PagesFor(size), [])]
          else t < |order| && i == order[t] && view == v)
      && forall r :: 0 <= r < t ==> NoRoom(v[order[r]], Need(size))
    }

    /** The request was served from the heap v: one new chunk is live, the one
        behind the pointer handed out. */
    ghost predicate Served(v: View, past: seq<HeapEvent>, size: nat, req: nat, alignment: nat,
                           p: Addr, c: Chunk, b: Block)
      reads this
    {
      && Consistent() && NoEmptyBlock(view)
      && c.User() == p && c.req == req && c.align == alignment
      && Live(view) == Live(v) + {c} && c !in Live(v) && inuse == TotalInUse(v) + size
      && events == past + [Placed(b.base, c)]
    }

    /** The best bet is moved to a block with more bytes free. */
    method Consider(maj: Addr, best: int, ghost i: nat) returns (bestSize: int, diff: int)
      requires Consistent() && i < |view| && maj == view[i].base
      modifies this`bestBet
      ensures Consistent() && BlockOk(view[i]) && diff == FreeBytes(view[i])
      ensures Bet(bestBet, bestSize) == Better(Bet(old(bestBet), best), view[i])
    {
      hide HeapOk, BlockOk, HeapStored, TotalSize, TotalInUse, Bases, Matches;
      StoredHeader(view, i, mem);
      diff := mem.majors[maj].size - mem.majors[maj].usage;
      bestSize := best;
      if bestSize < diff {
        bestBet := maj;
        bestSize := diff;
        BaseIsMember(view, i);
      }
    }

    /** Cases 2 to 4 on the block the search stands at. */
    method Visit(maj: Addr, size: nat, req: nat, alignment: nat, grant: Addr,
                 ghost v: View, ghost order: seq<nat>, ghost t: nat, ghost i: nat, ghost grown: bool)
      returns (p: Addr, ghost c: Chunk, ghost b: Block, ghost j: nat)
      requires IsAlignment(alignment) && Clean(v, size) && (forall k :: 0 <= k < |v| ==> k in order)
      requires Searching(v, order, size, grant, t, i, grown) && maj == view[i].base
      requires !grown ==> FreeBytes(view[i]) >= Need(size)
      modifies this`mem, this`inuse, this`view, this`events
      ensures p != 0 ==> Handed(b, j, c, p, size, req, alignment)
      ensures p != 0 ==> IsChosen(v, order, Need(size), size, grant, t, j, b)
      ensures p != 0 && Sized(size, req, alignment) ==>
                && Served(v, old(events), size, req, alignment, p, c, b)
                && IsFilled(v, order, size, grant, c, t, j, view)
      ensures p == 0 ==>
                && !grown && Searching(v, order, size, grant, t, i, grown) && NoRoom(v[i], Need(size))
                && events == old(events)
    {
      hide HeapOk, HeapStored, TotalSize, TotalInUse, IsAlignment, Bases, PagesFor, NoRoom, Live, PlacedAt, ChunkBytes,
        Roomy, Matches, BlockOk, Sized, Need;
      ghost var before := view;
      b := view[i];
      StoredHeader(view, i, mem);
      FirstIsNull(view[i]);
      if mem.majors[maj].first == 0 {
        p, c := PlaceFirst(maj, size, req, alignment, i);
        j := 0;
        BlankGap(b);
      } else {
        p, j, c := TryBlock(maj, size, req, alignment, i);
      }
      if p != 0 && Sized(size, req, alignment) {
        if grown {
          AllVisited(v, order, Need(size));
          NeverLeft(v, size, req, alignment);
        }
        RoomyIfSized(b, j, size, req, alignment);
        Outcome(v, before, view, i, j, c, p, size, req, alignment);
      }
    }

    /** Leaving a block without room. */
    method Leave(maj: Addr, startedBet: bool, size: nat, grant: Addr,
                 ghost v: View, ghost s: nat, ghost atBet: bool, ghost t: nat, ghost i: nat)
      returns (next: Addr, bet: bool, grown: bool, ghost k: nat)
      requires size < WORD && Grantable(v, grant, PagesFor(size))
      requires IsAt(|v|, s, atBet, !startedBet, i, t) && NoRoom(v[i], Need(size))
      requires Searching(v, OrderFrom(|v|, s, atBet), size, grant, t, i, false) && maj == view[i].base
      modifies this`mem, this`systemBytes, this`view
      ensures next != 0 ==> Searching(v, OrderFrom(|v|, s, atBet), size, grant, t + 1, k, grown) && next == view[k].base
      ensures next != 0 && !grown ==> IsAt(|v|, s, atBet, !bet, k, t + 1)
      ensures next == 0 ==>
                && Consistent() && view == v && grant == 0
                && var order := OrderFrom(|v|, s, atBet);
                && t + 1 == |order| && forall r :: 0 <= r < |order| ==> NoRoom(v[order[r]], Need(size))
    {
      hide HeapOk, HeapStored, TotalSize, TotalInUse, Grantable, Bases, PagesFor, NoRoom, Matches, Need, OrderFrom;
      OrderAt(|v|, s, atBet, !startedBet, i, t);
      next, bet, grown, k := Advance(maj, startedBet, size, grant, i);
      if next != 0 && !grown {
        OrderAt(|v|, s, atBet, !bet, k, t + 1);
      }
    }

    /** The loop over the blocks. The list never runs out in it: its end is met by
        growing or by giving up. */
    method Search(start: Addr, bet: bool, best: int, size: nat, req: nat, alignment: nat, grant: Addr,
                  ghost v: View, ghost s: nat)
      returns (p: Addr, ghost c: Chunk, ghost b: Block, ghost t: nat, ghost j: nat)
      requires IsAlignment(alignment) && size < WORD && Clean(v, size) && Grantable(v, grant, PagesFor(size))
      requires Consistent() && view == v && s < |v| && start == v[s].base && (bet || s == 0)
      modifies this
      ensures p != 0 ==> Handed(b, j, c, p, size, req, alignment)
      ensures IsResult(v, OrderFrom(|v|, s, bet), Bet(old(bestBet), best), Need(size), size, grant, p, b, t, j, bestBet)
      ensures p != 0 && Sized(size, req, alignment) ==>
                && Served(v, old(events), size, req, alignment, p, c, b)
                && IsFilled(v, OrderFrom(|v|, s, bet), size, grant, c, t, j, view)
      ensures p == 0 ==> Consistent() && view == v && events == old(events)
    {
      hide HeapOk, HeapStored, TotalSize, TotalInUse, Grantable, Bases, PagesFor, NoRoom, Live, Served, ChunkBytes,
        IsAlignment, Clean, Handed, Sized, Matches, Need, BlockOk, OrderFrom, IsChosen, BestOf, FreeBytes, IsFilled;
      var maj, startedBet, bestSize, diff := start, bet, best, 0;
      ghost var i: nat, grown := s, false;
      ghost var order, bet0 := OrderFrom(|v|, s, bet), Bet(bestBet, best);
      c, b, t, j := Chunk(0, 0, 0, 0, 0), Block(0, 0, []), 0, 0;
      OrderCovers(|v|, s, bet);
      OrderAt(|v|, s, bet, !bet, i, t);
      BestOfNone(v, order, bet0);
      assert order[..|order|] == order;
      while true
        invariant Searching(v, order, size, grant, t, i, grown) && maj == view[i].base && events == old(events)
        invariant !grown ==> IsAt(|v|, s, bet, !startedBet, i, t)
        invariant grown ==> FreeBytes(view[i]) >= Need(size) && FreeBytes(v[order[t - 1]]) >= Need(size)
        invariant Bet(bestBet, bestSize) == BestOf(v, order[..t], bet0)
        decreases |order| - t
      {
        bestSize, diff := Consider(maj, bestSize, i);
        if !grown {
          BestOfNext(v, order, t, bet0);
        }
        var grew;
        if diff < Need(size) {
          TooFull(view[i], Need(size));
          maj, startedBet, grew, i := Leave(maj, startedBet, size, grant, v, s, bet, t, i);
          t := t + 1;
          if maj == 0 {
            return 0, c, b, t, j;
          }
          if !grew {
            continue;
          }
          p, c, b, j := Visit(maj, size, req, alignment, grant, v, order, t, i, true);
          return;
        }
        p, c, b, j := Visit(maj, size, req, alignment, grant, v, order, t, i, grown);
        if p != 0 {
          return;
        }
        NewBlockPasses(view[i], size, diff, grant);
        maj, startedBet, grew, i := Leave(maj, startedBet, size, grant, v, s, bet, t, i);
        t := t + 1;
        if maj == 0 {
          return;
        }
        grown := grew;
      }
    }

    /** Where the search begins. */
    method Start(size: nat) returns (maj: Addr, startedBet: bool, bestSize: int, ghost i: nat)
      requires Consistent() && memRoot != 0
      ensures i < |view| && maj == view[i].base && (startedBet || i == 0)
      ensures SearchOrder(view, bestBet, Need(size)) == OrderFrom(|view|, i, startedBet)
      ensures BetOf(view, bestBet) == Bet(bestBet, bestSize)
    {
      hide HeapOk, BlockOk, HeapStored, TotalSize, TotalInUse, Bases, Need, Matches, OrderFrom, BetOf, SearchOrder;
      RootIsFirst(view);
      SearchFromRoot(view, Need(size));
      maj, startedBet, bestSize, i := memRoot, false, 0, 0;
      if bestBet != 0 {
        ghost var k := IndexOfBase(view, bestBet);
        SearchFromBet(view, bestBet, Need(size), k);
        StoredHeader(view, k, mem);
        bestSize := mem.majors[bestBet].size - mem.majors[bestBet].usage;
        if bestSize > Need(size) {
          maj := bestBet;
          startedBet := true;
          i := k;
        }
      }
    }

    /** Serving a request of the given size from a heap that was begun. */
    method Serve(size: nat, req: nat, alignment: nat, grant: Addr)
      returns (p: Addr, ghost c: Chunk, ghost b: Block, ghost t: nat, ghost j: nat)
      requires Consistent() && memRoot != 0 && IsAlignment(alignment) && size < WORD && Clean(view, size)
      requires Grantable(view, grant, PagesFor(size))
      modifies this
      ensures IsFound(old(view), old(bestBet), grant, size, alignment, p, c, b, t, j, bestBet)
      ensures p != 0 ==> Handed(b, j, c, p, size, req, alignment)
      ensures p == 0 ==> Consistent() && view == old(view) && events == old(events) && grant == 0
      ensures Sized(size, req, alignment) && p == 0 ==> NoEmptyBlock(view)
      ensures Sized(size, req, alignment) && p != 0 ==>
                && Served(old(view), old(events), size, req, alignment, p, c, b)
                && IsFilled(old(view), SearchOrder(old(view), old(bestBet), (size + 24) % 0x1_0000_0000),
                            size, grant, c, t, j, view)
      ensures Sized(size, req, alignment) && (p == 0 || |view| > |old(view)|) ==>
                forall k :: 0 <= k < |old(view)| ==> NoRoom(old(view)[k], Need(size))
    {
      assert Need(size) == (size + 24) % 0x1_0000_0000;
      hide HeapOk, HeapStored, TotalSize, TotalInUse, IsAlignment, Bases, PagesFor, NoRoom, Live, ChunkBytes, Sized,
        Matches, Need, Grantable, OrderFrom, Clean, SearchOrder, BetOf, Served, IsFilled, Handed, IsFound, IsResult,
        Consistent;
      ghost var v, i := view, 0;
      var maj, startedBet, bestSize;
      maj, startedBet, bestSize, i := Start(size);
      p, c, b, t, j := Search(maj, startedBet, bestSize, size, req, alignment, grant, v, i);
      FoundBy(v, old(bestBet), grant, size, req, alignment, p, c, b, t, j, bestBet);
      if Sized(size, req, alignment) {
        OrderCovers(|v|, i, startedBet);
        RoomNowhere(v, view, OrderFrom(|v|, i, startedBet), Need(size), size, grant, Bet(old(bestBet), bestSize),
                    p, c, b, t, j, bestBet);
        if p == 0 {
          NeverLeft(v, size, req, alignment);
        }
      }
    }

    /** Serving a request of the given size: from the heap, or from new pages. */
    method Obtain(size: nat, req: nat, alignment: nat, rootGrant: Addr, grant: Addr)
      returns (p: Addr, ghost c: Chunk, ghost b: Block, ghost t: nat, ghost j: nat)
      requires Valid() && IsAlignment(alignment) && size < WORD
      requires GrantsOk(view, rootGrant, grant, PagesFor(size))
      modifies this
      ensures IsAnswer(old(view), old(bestBet), rootGrant, grant, size, alignment, p, c, b, t, j, bestBet)
      ensures p != 0 ==> Handed(b, j, c, p, size, req, alignment)
      ensures p == 0 ==> Consistent() && Live(view) == Live(old(view)) && events == old(events)
      ensures Sized(size, req, alignment) && p == 0 ==> Asked(old(view), rootGrant, grant) == 0 && view == old(view)
      ensures Sized(size, req, alignment) && p != 0 ==>
                && Served(old(view), old(events), size, req, alignment, p, c, b)
                && IsFilledFrom(old(view), old(bestBet), rootGrant, grant, size, c, t, j, view)
      ensures Sized(size, req, alignment) && (p == 0 || |view| > |old(view)|) ==>
                forall k :: 0 <= k < |old(view)| ==> NoRoom(old(view)[k], Need(size))
    {
      hide HeapOk, HeapStored, TotalSize, TotalInUse, IsAlignment, Bases, PagesFor, NoRoom, Live, ChunkBytes,
        Sized, Matches, Need, Grantable, BlockOk, Handed, IsFound, IsFilled;
      if memRoot == 0 {
        StartHeap(size, rootGrant);
        if memRoot == 0 {
          c, b, t, j := Chunk(0, 0, 0, 0, 0), Block(0, 0, []), 0, 0;
          return 0, c, b, t, j;
        }
        BlankHeap(view[0]);
      }
      p, c, b, t, j := Serve(size, req, alignment, grant);
    }

    /** Memory for req bytes at the given alignment, for any two 32-bit words: which pointer
        it is, is determined. What is handed out serves the request exactly when its size
        computation does not wrap; if it does, the heap is not promised to survive. A size
        that wraps to 0 is answered like malloc(1). */
    method MallocAlign(req: nat, alignment: nat, rootGrant: Addr, grant: Addr)
      returns (p: Addr, ghost c: Chunk, ghost b: Block, ghost t: nat, ghost j: nat)
      requires Valid() && IsAlignment(alignment) && req < WORD && alignment < WORD
      requires GrantsOk(view, rootGrant, grant, PagesFor(BodySize(req, alignment)))
      modifies this
      ensures var size := (req + alignment + 16) % 0x1_0000_0000;
              if size == 0
              then IsAnswer(old(view), old(bestBet), rootGrant, grant, 21, 4, p, c, b, t, j, bestBet)
              else IsAnswer(old(view), old(bestBet), rootGrant, grant, size, alignment, p, c, b, t, j, bestBet)
      ensures p != 0 ==> BlockOk(b) && c.User() == p && (Serves(b, c, req) <==> Fits(req, alignment))
      ensures p == 0 ==> Consistent() && Live(view) == Live(old(view)) && events == old(events)
      ensures Fits(req, alignment) ==> Valid()
      ensures Fits(req, alignment) && p == 0 ==> Asked(old(view), rootGrant, grant) == 0 && view == old(view)
      ensures Fits(req, alignment) && p != 0 ==>
                && c.req == req && c.align == alignment && c.size == Body(req, alignment)
                && IsFilledFrom(old(view), old(bestBet), rootGrant, grant, c.size, c, t, j, view)
                && Live(view) == Live(old(view)) + {c} && c !in Live(old(view))
                && inuse == old(inuse) + Body(req, alignment) && events == old(events) + [Placed(b.base, c)]
      ensures Fits(req, alignment) && (p == 0 || |view| > |old(view)|) ==>
                forall k :: 0 <= k < |old(view)| ==> NoRoom(old(view)[k], Body(req, alignment) + MINOR_SIZE)
      decreases !Fits(req, alignment), 0
    {
      hide HeapOk, HeapStored, TotalSize, TotalInUse, IsAlignment, Bases, PagesFor, NoRoom, Live, ChunkBytes, BlockOk,
        Matches, Handed, Grantable, GrantsOk, IsAnswer, IsFilledFrom;
      var size := (req + alignment + ALIGN_INFO) % WORD;
      AlignmentBound(alignment);
      if size == 0 {
        SmallestRequest();
        p, c, b, t, j := Malloc(1, rootGrant, grant);
        return;
      }
      p, c, b, t, j := Obtain(size, req, alignment, rootGrant, grant);
      if p != 0 {
        HandedServes(b, j, c, p, size, req, alignment);
      }
    }

    /** malloc asks for the alignment of a pointer. */
    method Malloc(req: nat, rootGrant: Addr, grant: Addr)
      returns (p: Addr, ghost c: Chunk, ghost b: Block, ghost t: nat, ghost j: nat)
      requires Valid() && req < WORD && GrantsOk(view, rootGrant, grant, PagesFor(BodySize(req, 4)))
      modifies this
      ensures var size := (req + 20) % 0x1_0000_0000;
              IsAnswer(old(view), old(bestBet), rootGrant, grant, if size == 0 then 21 else size, 4,
                       p, c, b, t, j, bestBet)
      ensures p != 0 ==> BlockOk(b) && c.User() == p && (Serves(b, c, req) <==> Fits(req, 4))
      ensures p == 0 ==> Consistent() && Live(view) == Live(old(view)) && events == old(events)
      ensures Fits(req, 4) ==> Valid()
      ensures Fits(req, 4) && p == 0 ==> Asked(old(view), rootGrant, grant) == 0 && view == old(view)
      ensures Fits(req, 4) && p != 0 ==>
                && p % 4 == 0 && c.req == req && c.size == Body(req, 4)
                && IsFilledFrom(old(view), old(bestBet), rootGrant, grant, c.size, c, t, j, view)
                && Live(view) == Live(old(view)) + {c} && c !in Live(old(view))
                && events == old(events) + [Placed(b.base, c)]
      decreases !Fits(req, 4), 1
    {
      assert IsAlignment(4) by {
        assert Pow2(2) == 4;
      }
      hide Live, HeapOk, HeapStored, Matches, IsAlignment, PagesFor, GrantsOk, BlockOk, TotalSize, TotalInUse, Bases,
        NoRoom, IsAnswer, IsFilledFrom;
      p, c, b, t, j := MallocAlign(req, 4, rootGrant, grant);
      if p != 0 && Fits(req, 4) {
        LiveOk(view, c);
      }
    }

    /** Unlinks the live chunk headed at min from its block. */
    method TakeOut(min: Addr, ghost i: nat, ghost j: nat) returns (maj: Addr)
      requires Consistent() && i < |view| && j < |view[i].chunks| && view[i].chunks[j].addr == min
      modifies this`mem, this`inuse, this`view, this`events
      ensures view == old(view)[i := Remove(old(view)[i], j)] && maj == old(view)[i].base
      ensures events == old(events) + [Freed(old(view)[i].chunks[j])]
      ensures mem.notes == old(mem).notes && min in mem.magics && mem.magics[min] == DEAD
      ensures inuse == old(inuse) - old(view)[i].chunks[j].size
      ensures Consistent()
    {
      hide HeapOk, HeapStored, TotalSize, TotalInUse, LinkOut, Bases, Addrs, BlockOk, ChunkBytes, Matches;
      ghost var b := view[i];
      StoredHeader(view, i, mem);
      StoredChunk(view, i, j, mem);
      AfterTake(view, i, j, mem);
      MatchesFreed(events, mem, b, j);
      maj := mem.minors[min].block;
      inuse := inuse - mem.minors[min].size;
      var less := mem.minors[min].size + MINOR_SIZE;
      mem := mem.(majors := mem.majors[maj := mem.majors[maj].(usage := mem.majors[maj].usage - less)]);
      mem := mem.(magics := mem.magics[min := DEAD]);
      var next, prev := mem.minorLinks.next[min], mem.minorLinks.prev[min];
      if next != 0 {
        mem := mem.(minorLinks := SetPrev(mem.minorLinks, next, prev));
      }
      if prev != 0 {
        mem := mem.(minorLinks := SetNext(mem.minorLinks, prev, next));
      }
      if prev == 0 {
        mem := mem.(majors := mem.majors[maj := mem.majors[maj].(first := next)]);
      }
      UnlinkChunk(b, j, old(mem).minorLinks);
      FirstAfterRemove(b, j);
      assert mem == Take(old(mem), b, j);
      view := view[i := Remove(b, j)];
      events := events + [Freed(b.chunks[j])];
    }

    /** Gives an empty block back to the system. */
    method Release(maj: Addr, ghost i: nat)
      requires Consistent() && i < |view| && view[i].base == maj && view[i].chunks == []
      modifies this`mem, this`memRoot, this`bestBet, this`systemBytes, this`view, this`events
      ensures Consistent() && view == old(view)[..i] + old(view)[i + 1..]
      ensures events == old(events) + [Released(old(view)[i])]
      ensures mem.notes == Outside(old(mem).notes, 0, WORD_SIZE, maj, old(view)[i].End())
      ensures systemBytes == old(systemBytes) - old(view)[i].Size()
      ensures bestBet == if old(bestBet) == maj then 0 else old(bestBet)
    {
      hide HeapOk, HeapStored, TotalSize, TotalInUse, LinkOut, Bases, BlockOk, Matches, Outside, SetNext, SetPrev, At,
        ChunkBytes, Addrs;
      ghost var v := view;
      StoredHeader(view, i, mem);
      AfterDrop(view, i, mem);
      var next, prev := mem.majorLinks.next[maj], mem.majorLinks.prev[maj];
      if memRoot == maj {
        memRoot := next;
      }
      if bestBet == maj {
        bestBet := 0;
      }
      if prev != 0 {
        mem := mem.(majorLinks := SetNext(mem.majorLinks, prev, next));
      }
      if next != 0 {
        mem := mem.(majorLinks := SetPrev(mem.majorLinks, next, prev));
      }
      systemBytes := systemBytes - mem.majors[maj].size;
      var end := maj + mem.majors[maj].pages * PAGE_SIZE;
      mem := mem.(majors := mem.majors - {maj}, minors := Outside(mem.minors, 0, MINOR_SIZE, maj, end),
                  magics := Outside(mem.magics, MAGIC_OFFSET, WORD_SIZE, maj, end),
                  notes := Outside(mem.notes, 0, WORD_SIZE, maj, end));
      UnlinkBlock(v, i, old(mem).majorLinks);
      RootAfterDrop(v, i);
      assert mem == DropBlock(old(mem), v, i);
      view := v[..i] + v[i + 1..];
      MatchesReleased(events, old(mem), v, i);
      events := events + [Released(v[i])];
    }

    /** The header that the padding recorded in front of ptr leads to. */
    ghost function HeaderOf(ptr: Addr): int
      requires ptr >= ALIGN_INFO && ptr - ALIGN_INFO in mem.notes
      reads this`mem
    {
      ptr - mem.notes[ptr - ALIGN_INFO] - ALIGN_INFO - MINOR_SIZE
    }

    /** ptr leads to a magic word, and both it and the note are as the allocator left them:
        their block has not been given back, nothing was written over them, and no caller
        was given them. */
    ghost predicate HasHeader(ptr: Addr)
      reads this`mem
    {
      && ptr >= ALIGN_INFO && ptr - ALIGN_INFO in mem.notes
      && HeaderOf(ptr) >= 0 && HeaderOf(ptr) in mem.magics
    }

    ghost predicate LeadsTo(ptr: Addr, a: Addr, magic: nat)
      reads this`mem
    {
      HasHeader(ptr) && HeaderOf(ptr) == a && mem.magics[a] == magic
    }

    /** The pointer of a live chunk leads back to that chunk's header. */
    lemma LivePointerLeadsBack(c: Chunk)
      requires Valid() && c in Live(view)
      ensures LeadsTo(c.User(), c.addr, MAGIC)
    {
      hide Live, HeapOk, HeapStored, Matches;
      var i, j := LiveAt(view, c);
      StoredChunk(view, i, j, mem);
    }

    /** What free reads lies in memory that the heap holds. */
    lemma ReadableIsHeld(ptr: Addr)
      requires Consistent() && HasHeader(ptr)
      ensures Held(view, ptr - ALIGN_INFO, WORD_SIZE) && Held(view, HeaderOf(ptr) + MAGIC_OFFSET, WORD_SIZE)
    {
      hide HeapOk, Matches, Held, MagicIsLive, BlockStored, Links;
      var n := ptr - ALIGN_INFO;
      assert NoteHeld(view, n, mem.notes[n]);
      PartHeld(view, HeaderOf(ptr), MINOR_SIZE + mem.notes[n] + WORD_SIZE, n, WORD_SIZE);
    }

    /** When free is certain to take a pointer for that of a dead chunk, by the history
        alone: a chunk at the address it leads to was freed and its magic word left alone
        since, and a chunk there noted the padding and that note was left alone since. */
    lemma FoundDeadIff(ptr: Addr, a: Addr)
      requires Consistent()
      ensures LeadsTo(ptr, a, DEAD) <==>
                ptr >= ALIGN_INFO && HasDied(events, a) && WasNoted(events, ptr - ALIGN_INFO, a)
    {
      hide HeapOk, HeapStored, Honest, HasDied, WasNoted, MagicsAfter, NotesAfter;
      DeadIff(events, a);
      if ptr >= ALIGN_INFO {
        NotedIff(events, ptr - ALIGN_INFO, a);
      }
    }

    /** When free is certain to take a pointer for that of a live chunk, its own or another:
        a live chunk starts at the address it leads to, and some chunk that started there
        noted the padding and that note was left alone since. */
    lemma FoundLiveIff(ptr: Addr, a: Addr)
      requires Consistent()
      ensures LeadsTo(ptr, a, MAGIC) <==>
                ptr >= ALIGN_INFO && HeadsLive(view, a) && WasNoted(events, ptr - ALIGN_INFO, a)
    {
      hide HeapOk, BlockStored, Links, AllHeld, HeadsLive, Honest, WasNoted, MagicsAfter, NotesAfter;
      if ptr >= ALIGN_INFO {
        NotedIff(events, ptr - ALIGN_INFO, a);
      }
      if HeadsLive(view, a) {
        LiveMagic(view, mem, a);
      }
    }

    /** A second free of c is certain to be noticed exactly if its block is still held and
        since the first nothing was written over, and no caller was given, its magic word or
        its note. */
    lemma SecondFreeNoticed(before: seq<HeapEvent>, c: Chunk, more: seq<HeapEvent>)
      requires Consistent() && events == before + [Freed(c)] + more && NothingPlacedAt(more, c.addr)
      ensures LeadsTo(c.User(), c.addr, DEAD) <==>
                Untouched(more, c.addr + MAGIC_OFFSET, WORD_SIZE) && Untouched(more, c.Note(), WORD_SIZE)
    {
      hide HeapOk, HeapStored, Honest, MagicsAfter, NotesAfter, Untouched;
      SecondFreeNoticedIff(before, c, more);
    }

    /** When everything has been given back, nothing is kept from the system. */
    lemma AllGivenBack()
      requires Valid() && Live(view) == {}
      ensures view == [] && memRoot == 0 && bestBet == 0 && systemBytes == 0 && inuse == 0 && mem.majors == map[]
    {
      hide Live;
      NothingKept(view);
    }

    /** What became of the blocks, the best bet and the memory of the system when chunk j of
        block i was given back. */
    ghost predicate IsGivenBack(v: View, bet: Addr, bytes: nat, i: nat, j: nat)
      requires i < |v| && j < |v[i].chunks|
      reads this
    {
      if |v[i].chunks| == 1 then
        && view == v[..i] + v[i + 1..] && systemBytes == bytes - v[i].Size()
        && bestBet == (if bet == v[i].base then 0 else bet)
      else
        && view == v[i := Remove(v[i], j)] && systemBytes == bytes
        && bestBet == BetAfterFree(view, bet, i)
    }

    /** Gives back the live chunk c that the pointer leads to, whoever it belongs to, and its
        block with it when it was the last one. A null pointer, and a pointer that leads to a
        header marked dead, change nothing. Afterwards the pointer leads to such a header
        exactly if the block is still held. */
    method Free(ptr: Addr) returns (ghost c: Chunk, ghost b: Block, ghost i: nat, ghost j: nat)
      requires Valid() && (ptr != 0 ==> HasHeader(ptr))
      modifies this
      ensures Valid()
      ensures ptr == 0 || old(mem.magics[HeaderOf(ptr)] != MAGIC) ==>
                && view == old(view) && mem == old(mem) && events == old(events)
                && inuse == old(inuse) && systemBytes == old(systemBytes) && bestBet == old(bestBet)
      ensures ptr != 0 && old(mem.magics[HeaderOf(ptr)] == MAGIC) ==>
                && c in Live(old(view)) && c.addr == old(HeaderOf(ptr))
                && Live(view) == Live(old(view)) - {c} && inuse == old(inuse) - c.size
                && (Held(view, c.addr, MINOR_SIZE) ==>
                      LeadsTo(ptr, c.addr, DEAD) && events == old(events) + [Freed(c)])
                && (!Held(view, c.addr, MINOR_SIZE) ==>
                      && !HasHeader(ptr) && InBlock(b, c)
                      && events == old(events) + [Freed(c), Released(b.(chunks := []))])
                && i < |old(view)| && j < |b.chunks| && b == old(view)[i] && c == b.chunks[j]
                && IsGivenBack(old(view), old(bestBet), old(systemBytes), i, j)
    {
      hide HeapOk, HeapStored, TotalSize, TotalInUse, Bases, Addrs, Live, NoEmptyBlock, Matches, Held;
      c, b, i, j := Chunk(0, 0, 0, 0, 0), Block(0, 0, []), 0, 0;
      if ptr == 0 {
        return;
      }
      var pad := mem.notes[ptr - ALIGN_INFO];
      var u := ptr - pad - ALIGN_INFO;
      var min := u - MINOR_SIZE;
      if mem.magics[min] != MAGIC {
        return;
      }
      i, j := LiveByMagic(view, mem, min);
      c, b := view[i].chunks[j], view[i];
      LiveMember(view, i, j);
      GiveBack(ptr, min, i, j);
    }

    /** The rest of free, once the header has the magic word of a live chunk. */
    method GiveBack(ptr: Addr, min: Addr, ghost i: nat, ghost j: nat)
      requires Valid() && HasHeader(ptr) && HeaderOf(ptr) == min
      requires i < |view| && j < |view[i].chunks| && view[i].chunks[j].addr == min
      modifies this
      ensures Valid()
      ensures var b := old(view)[i];
              var c := b.chunks[j];
              && Live(view) == Live(old(view)) - {c} && inuse == old(inuse) - c.size
              && (Held(view, min, MINOR_SIZE) ==> LeadsTo(ptr, min, DEAD) && events == old(events) + [Freed(c)])
              && (!Held(view, min, MINOR_SIZE) ==>
                    !HasHeader(ptr) && events == old(events) + [Freed(c), Released(b.(chunks := []))])
      ensures IsGivenBack(old(view), old(bestBet), old(systemBytes), i, j)
    {
      hide HeapOk, HeapStored, TotalSize, TotalInUse, Bases, Addrs, Live, NoEmptyBlock, Matches, Held, BetAfterFree,
        BlockOk, ChunkBytes, Outside;
      ghost var v := view;
      LiveRemove(v, i, j);
      SameBlock(v, i, j, mem, ptr - ALIGN_INFO);
      var maj := TakeOut(min, i, j);
      StoredHeader(view, i, mem);
      FirstIsNull(view[i]);
      NoEmptyAfter(v, view, i);
      if mem.majors[maj].first == 0 {
        LiveEmptyBlock(view, i);
        Forgotten(v, i, j, mem.notes, ptr - ALIGN_INFO);
        Release(maj, i);
        assert events == old(events) + [Freed(v[i].chunks[j]), Released(v[i].(chunks := []))];
      } else {
        Reconsider(maj, i);
        StillHeld(v, i, j);
      }
    }

    /** The block that lost a chunk may be the better bet now. */
    method Reconsider(maj: Addr, ghost i: nat)
      requires Consistent() && i < |view| && view[i].base == maj
      modifies this`bestBet
      ensures Consistent() && bestBet == BetAfterFree(view, old(bestBet), i)
    {
      hide HeapOk, HeapStored, TotalSize, TotalInUse, Bases, Matches, BetAfterFree, ToInt32, AsSigned,
        BlockOk;
      StoredHeader(view, i, mem);
      NoBetIndex(view, i);
      if bestBet != 0 {
        ghost var k := IndexOfBase(view, bestBet);
        StoredHeader(view, k, mem);
        BetIndex(view, bestBet, k, i);
        SignedWord(FreeBytes(view[i]));
        SignedWord(FreeBytes(view[k]));
        var bestSize := ToInt32(mem.majors[bestBet].size - mem.majors[bestBet].usage);
        var majSize := ToInt32(mem.majors[maj].size - mem.majors[maj].usage);
        if majSize > bestSize {
          bestBet := maj;
          BaseIsMember(view, i);
        }
      }
    }
  }

  /** An unsigned difference stored in a signed int. */
  function ToInt32(x: int): int {
    if x % WORD < 0x8000_0000 then x % WORD else x % WORD - WORD
  }

  lemma SignedWord(x: int)
    ensures ToInt32(x) == AsSigned(x)
  {
  }

  lemma LiveOk(v: View, c: Chunk)
    requires HeapOk(v) && c in Live(v)
    ensures ChunkOk(c)
  {
    var i, j := LiveAt(v, c);
    assert BlockOk(v[i]);
  }

  /** A chunk taken out of its block leaves its bytes in the block. */
  lemma StillHeld(v: View, i: nat, j: nat)
    requires HeapOk(v) && i < |v| && j < |v[i].chunks|
    ensures Held(v[i := Remove(v[i], j)], v[i].chunks[j].addr, MINOR_SIZE)
  {
    assert BlockOk(v[i]);
    HeldBy(v[i := Remove(v[i], j)], i, v[i].chunks[j].addr, MINOR_SIZE);
  }

  /** If the block goes, its bytes are nobody's and a note in it is gone. */
  lemma Forgotten(v: View, i: nat, j: nat, notes: map<Addr, nat>, n: Addr)
    requires HeapOk(v) && i < |v| && j < |v[i].chunks| && v[i].base <= n && n + WORD_SIZE <= v[i].End()
    ensures var c, w := v[i].chunks[j], v[i := Remove(v[i], j)];
            && !Held(w[..i] + w[i + 1..], c.addr, MINOR_SIZE)
            && n !in Outside(notes, 0, WORD_SIZE, v[i].base, v[i].End())
  {
    var c, w := v[i].chunks[j], v[i := Remove(v[i], j)];
    assert BlockOk(v[i]) && ChunkOk(c);
    var rest := w[..i] + w[i + 1..];
    forall k | 0 <= k < |rest|
      ensures !(rest[k].base <= c.addr && c.addr + MINOR_SIZE <= rest[k].End())
    {
      var l := if k < i then k else k + 1;
      assert rest[k] == v[l];
      BlocksApart(v, i, l);
    }
  }

  /** A note that leads to a chunk lies in that chunk's block. */
  lemma SameBlock(v: View, i: nat, j: nat, mem: Memory, n: Addr)
    requires HeapOk(v) && HeapStored(v, mem) && i < |v| && j < |v[i].chunks|
    requires n in mem.notes && v[i].chunks[j].addr + MINOR_SIZE + mem.notes[n] == n
    ensures v[i].base <= n && n + WORD_SIZE <= v[i].End()
  {
    hide MagicIsLive, BlockStored, Links;
    var a, width := v[i].chunks[j].addr, MINOR_SIZE + mem.notes[n] + WORD_SIZE;
    assert NoteHeld(v, n, mem.notes[n]);
    var l :| 0 <= l < |v| && v[l].base <= a && a + width <= v[l].End();
    BlockOkAt(v, i);
    OneHolder(v, i, l, a);
  }

  lemma OneHolder(v: View, i: nat, l: nat, a: Addr)
    requires HeapOk(v) && i < |v| && l < |v|
    requires v[i].base <= a < v[i].End() && v[l].base <= a < v[l].End()
    ensures i == l
  {
    if i != l {
      BlocksApart(v, i, l);
    }
  }

  lemma PartHeld(v: View, a: Addr, width: nat, b: Addr, part: nat)
    requires Held(v, a, width) && a <= b && b + part <= a + width
    ensures Held(v, b, part)
  {
    var l :| 0 <= l < |v| && v[l].base <= a && a + width <= v[l].End();
    HeldBy(v, l, b, part);
  }

  /** The live chunk that a readable magic word belongs to. */
  lemma LiveByMagic(v: View, mem: Memory, a: Addr) returns (i: nat, j: nat)
    requires HeapStored(v, mem) && a in mem.magics && mem.magics[a] == MAGIC
    ensures i < |v| && j < |v[i].chunks| && v[i].chunks[j].addr == a
  {
    hide BlockStored, Links, AllHeld;
    assert HeadsLive(v, a);
    i, j :| 0 <= i < |v| && 0 <= j < |v[i].chunks| && v[i].chunks[j].addr == a;
  }

  lemma LiveMagic(v: View, mem: Memory, a: Addr)
    requires HeapOk(v) && HeapStored(v, mem) && HeadsLive(v, a)
    ensures a in mem.magics && mem.magics[a] == MAGIC
  {
    hide HeapOk, HeapStored;
    var i, j :| 0 <= i < |v| && 0 <= j < |v[i].chunks| && v[i].chunks[j].addr == a;
    StoredChunk(v, i, j, mem);
  }

  // What free relies on -------------------------------------------------------

  lemma LiveAt(v: View, c: Chunk) returns (i: nat, j: nat)
    requires c in Live(v)
    ensures i < |v| && j < |v[i].chunks| && v[i].chunks[j] == c
  {
    i, j :| 0 <= i < |v| && 0 <= j < |v[i].chunks| && v[i].chunks[j] == c;
  }

  lemma AfterTake(v: View, i: nat, j: nat, mem: Memory)
    requires HeapOk(v) && HeapStored(v, mem) && i < |v| && j < |v[i].chunks|
    ensures var w := v[i := Remove(v[i], j)];
            && HeapOk(w) && HeapStored(w, Take(mem, v[i], j)) && Bases(w) == Bases(v)
            && TotalSize(w) == TotalSize(v) && TotalInUse(w) == TotalInUse(v) - v[i].chunks[j].size
            && Remove(v[i], j).Usage() == v[i].Usage() - MINOR_SIZE - v[i].chunks[j].size
  {
    hide HeapOk, HeapStored, BlockOk, Take, SizeSum, TotalSize, TotalInUse, ChunkBytes;
    BlockOkAt(v, i);
    RemoveOk(v[i], j);
    TakeOk(v, i, j, mem);
    TotalsReplace(v, i, Remove(v[i], j));
    SizeSumRemove(v[i], j);
    assert Bases(v[i := Remove(v[i], j)]) == Bases(v);
  }

  lemma UnlinkChunk(b: Block, j: nat, c: Chain)
    requires BlockOk(b) && j < |b.chunks|
    ensures var s := Addrs(b);
            var next, prev := At(s, j + 1), At(s, j - 1);
            var d := if next != 0 then SetPrev(c, next, prev) else c;
            (if prev != 0 then SetNext(d, prev, next) else d) == LinkOut(s, j, c)
  {
    AddrsDistinct(b);
  }

  lemma FirstAfterRemove(b: Block, j: nat)
    requires BlockOk(b) && j < |b.chunks|
    ensures At(Addrs(Remove(b, j)), 0) == if At(Addrs(b), j - 1) == 0 then At(Addrs(b), j + 1) else At(Addrs(b), 0)
  {
    AddrsDistinct(b);
    hide BlockOk;
    assert Addrs(Remove(b, j)) == RemoveAt(Addrs(b), j);
  }

  lemma AfterDrop(v: View, i: nat, mem: Memory)
    requires HeapOk(v) && HeapStored(v, mem) && i < |v| && v[i].chunks == []
    ensures var w := v[..i] + v[i + 1..];
            && HeapOk(w) && HeapStored(w, DropBlock(mem, v, i))
            && TotalSize(w) == TotalSize(v) - v[i].Size() && TotalInUse(w) == TotalInUse(v)
            && (forall a :: a in Bases(v) && a != v[i].base ==> a in Bases(w))
  {
    hide HeapOk, HeapStored, DropBlock;
    DropBlockStored(v, i, mem);
    TotalsDrop(v, i);
    var w := v[..i] + v[i + 1..];
    forall a | a in Bases(v) && a != v[i].base
      ensures a in Bases(w)
    {
      var k := IndexOfBase(v, a);
      BaseIsMember(w, if k < i then k else k - 1);
    }
  }

  lemma UnlinkBlock(v: View, i: nat, c: Chain)
    requires HeapOk(v) && i < |v|
    ensures var s := Bases(v);
            var next, prev := At(s, i + 1), At(s, i - 1);
            var d := if prev != 0 then SetNext(c, prev, next) else c;
            (if next != 0 then SetPrev(d, next, prev) else d) == LinkOut(s, i, c)
  {
    assert forall k :: 0 <= k < |v| ==> BlockOk(v[k]);
  }

  lemma RootAfterDrop(v: View, i: nat)
    requires HeapOk(v) && i < |v|
    ensures At(Bases(v[..i] + v[i + 1..]), 0) ==
              if At(Bases(v), 0) == v[i].base then At(Bases(v), i + 1) else At(Bases(v), 0)
  {
    var w := v[..i] + v[i + 1..];
    if i > 0 {
      BlocksApart(v, 0, i);
    }
    hide HeapOk;
    assert Bases(w) == RemoveAt(Bases(v), i);
  }

  /** Removing a chunk can empty only its own block. */
  lemma NoEmptyAfter(v: View, w: View, i: nat)
    requires NoEmptyBlock(v) && i < |v| && |w| == |v| && forall k :: 0 <= k < |v| && k != i ==> w[k] == v[k]
    ensures w[i].chunks != [] ==> NoEmptyBlock(w)
    ensures NoEmptyBlock(w[..i] + w[i + 1..])
  {
  }

  /** A block with too few free bytes has no room. */
  lemma TooFull(b: Block, need: nat)
    requires BlockOk(b) && FreeBytes(b) < need
    ensures NoRoom(b, need)
  {
    hide BlockOk;
    forall j | 0 <= j <= |b.chunks|
      ensures GapEnd(b, j) < GapStart(b, j) + need
    {
      GapAtMostFree(b, j);
    }
  }

  /** Only the last block has no successor. */
  lemma LastBlock(v: View, i: nat)
    requires HeapOk(v) && i < |v| && At(Bases(v), i + 1) == 0
    ensures i + 1 == |v|
  {
    assert forall k :: 0 <= k < |v| ==> BlockOk(v[k]);
  }

  lemma FirstIsNull(b: Block)
    requires BlockOk(b)
    ensures At(Addrs(b), 0) == 0 <==> b.chunks == []
  {
    AddrsDistinct(b);
  }

  /** What a placement means for the heap v0 the search began with: v is v0, or v0
      with a new block that the placement fills. */
  lemma Outcome(v0: View, v: View, w: View, i: nat, j: nat, c: Chunk, p: Addr, size: nat, req: nat, alignment: nat)
    requires HeapOk(v) && PlacedAt(v, w, i, j, c, p, size, req, alignment)
    requires NoEmptyBlock(v0) || (|v0| == 1 && v == v0)
    requires v == v0 || (|v| == |v0| + 1 && v0 == v[..|v0|] && i == |v0| && v[i].chunks == [])
    ensures p != 0 && NoEmptyBlock(w) && j <= |v[i].chunks| && w == v[i := Insert(v[i], j, c)]
    ensures c.User() == p && c.req == req && c.align == alignment
    ensures Live(w) == Live(v0) + {c} && c !in Live(v0) && TotalInUse(w) == TotalInUse(v0) + size
  {
    hide HeapOk, Live, TotalInUse, TotalSize, SizeSum, Placeable;
    assert j <= |v[i].chunks| by {
      PlaceableIndex(v[i], j, c);
    }
    NotYetLive(v, i, j, c);
    PlacedInside(v[i], j, c);
    LiveInsert(v, i, j, c);
    TotalsReplace(v, i, Insert(v[i], j, c));
    SizeSumInsert(v[i], j, c);
    if v != v0 {
      assert v == v0 + [v[i]];
      LiveAppendEmpty(v0, v[i]);
      TotalsAppend(v0, [v[i]]);
      TotalsOne(v[i]);
      EmptySum();
    }
  }

  lemma PlaceableIndex(b: Block, j: nat, c: Chunk)
    requires Placeable(b, j, c)
    ensures j <= |b.chunks|
  {
  }

  lemma EmptySum()
    ensures SizeSum([]) == 0
  {
  }

  lemma RootIsFirst(v: View)
    requires HeapOk(v) && At(Bases(v), 0) != 0
    ensures v != [] && v[0].base == At(Bases(v), 0)
  {
  }

  lemma IndexOfBase(v: View, a: Addr) returns (k: nat)
    requires a in Bases(v)
    ensures k < |v| && v[k].base == a
  {
    k :| 0 <= k < |v| && Bases(v)[k] == a;
  }

  lemma BaseIsMember(v: View, i: nat)
    requires i < |v|
    ensures v[i].base in Bases(v)
  {
    assert Bases(v)[i] == v[i].base;
  }

  lemma BasesAt(v: View, i: nat)
    requires i < |v|
    ensures Bases(v)[i] == v[i].base
  {
  }

  lemma LinkBlock(s: seq<Addr>, a: Addr, c: Chain)
    requires s != [] && a != s[|s| - 1]
    ensures SetPrev(SetNext(SetNext(SetPrev(c, a, 0), a, 0), s[|s| - 1], a), a, s[|s| - 1]) == LinkIn(s, |s|, a, c)
  {
  }

  lemma FreshBlock(v: View, size: nat, grant: Addr)
    requires HeapOk(v) && grant != 0 && Grantable(v, grant, PagesFor(size))
    ensures var b := Block(grant, PagesFor(size), []);
            && BlockOk(b)
            && (forall i :: 0 <= i < |v| ==> Apart(v[i], b) && v[i].base != grant)
  {
  }

  lemma AfterGrow(v: View, b: Block, mem: Memory)
    requires HeapOk(v) && HeapStored(v, mem) && BlockOk(b) && b.chunks == []
    requires forall i :: 0 <= i < |v| ==> Apart(v[i], b)
    ensures var w := v + [b];
            && HeapOk(w) && HeapStored(w, AddBlock(mem, v, b)) && Bases(w) == Bases(v) + [b.base]
            && TotalSize(w) == TotalSize(v) + b.Size() && TotalInUse(w) == TotalInUse(v) && Live(w) == Live(v)
  {
    hide HeapOk, HeapStored, BlockOk, AddBlock, Live;
    AddBlockOk(v, b, mem);
    TotalsAppend(v, [b]);
    TotalsOne(b);
    LiveAppendEmpty(v, b);
    assert Bases(v + [b]) == Bases(v) + [b.base];
  }

  lemma EmptyByRoot(v: View)
    requires HeapOk(v) && At(Bases(v), 0) == 0
    ensures v == []
  {
  }

  lemma LinkOnly(s: seq<Addr>, a: Addr, c: Chain)
    requires s == []
    ensures SetNext(SetPrev(c, a, 0), a, 0) == LinkIn(s, |s|, a, c)
  {
  }

  /** Only the last chunk of a block has no successor. */
  lemma LastByLink(b: Block, j: nat, v: View, i: nat)
    requires HeapOk(v) && i < |v| && v[i] == b && j < |b.chunks| && At(Addrs(b), j + 1) == 0
    ensures j + 1 == |b.chunks|
  {
    AddrsDistinct(b);
  }

  lemma AddrsAt(b: Block, j: nat)
    requires j < |b.chunks|
    ensures Addrs(b)[j] == b.chunks[j].addr
  {
  }

  // Reading headers -----------------------------------------------------------

  lemma StoredHeader(v: View, i: nat, mem: Memory)
    requires HeapOk(v) && HeapStored(v, mem) && i < |v|
    ensures BlockOk(v[i]) && v[i].base in mem.majors && v[i].base != 0
    ensures mem.majors[v[i].base] == Major(v[i].pages, v[i].Size(), v[i].Usage(), At(Addrs(v[i]), 0))
    ensures v[i].base in mem.majorLinks.next && mem.majorLinks.next[v[i].base] == At(Bases(v), i + 1)
    ensures v[i].base in mem.majorLinks.prev && mem.majorLinks.prev[v[i].base] == At(Bases(v), i - 1)
  {
    assert BlockStored(v[i], mem);
    assert Node(Bases(v), i, mem.majorLinks);
  }

  lemma StoredChunk(v: View, i: nat, j: nat, mem: Memory)
    requires HeapOk(v) && HeapStored(v, mem) && i < |v| && j < |v[i].chunks|
    ensures var c := v[i].chunks[j];
            && c.addr != 0 && c.addr in mem.minors
            && mem.minors[c.addr] == Minor(v[i].base, c.size, c.req)
            && c.addr in mem.magics && mem.magics[c.addr] == MAGIC
            && c.Note() in mem.notes && mem.notes[c.Note()] == c.pad
            && c.addr in mem.minorLinks.next && mem.minorLinks.next[c.addr] == At(Addrs(v[i]), j + 1)
            && c.addr in mem.minorLinks.prev && mem.minorLinks.prev[c.addr] == At(Addrs(v[i]), j - 1)
  {
    assert BlockStored(v[i], mem) && BlockOk(v[i]);
    assert ChunkStored(v[i], v[i].chunks[j], mem);
    assert Node(Addrs(v[i]), j, mem.minorLinks);
  }
}
