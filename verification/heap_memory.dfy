// How a heap layout is stored in memory: the two kinds of header, the lists that
// link them, and the padding recorded in front of each caller's bytes.

module HeapMemory {
  import opened HeapLayout
  import opened Chains

  const MAGIC: nat := 0xc001_c0de
  const DEAD: nat := 0xdead_dead

  /** The fields of a block header other than its links. */
  datatype Major = Major(pages: nat, size: nat, usage: nat, first: Addr)

  /** The fields of a chunk header other than its links and its magic word. */
  datatype Minor = Minor(block: Addr, size: nat, req: nat)

  /** Magic words by the address of their header, notes by their own. */
  datatype Memory = Memory(
    majorLinks: Chain, majors: map<Addr, Major>,
    minorLinks: Chain, minors: map<Addr, Minor>,
    magics: map<Addr, nat>, notes: map<Addr, nat>)

  /** Where the magic word is in a chunk header. */
  const MAGIC_OFFSET: nat := 12
  const WORD_SIZE: nat := 4

  /** n bytes from a on and m bytes from b on have a byte in common. */
  predicate Overlap(a: Addr, n: nat, b: Addr, m: nat) {
    0 < n && 0 < m && a < b + m && b < a + n
  }

  /** Some of these bytes are written when c is placed, or are its caller's to write. */
  predicate Covers(c: Chunk, a: Addr, width: nat) {
    || Overlap(c.addr, MINOR_SIZE, a, width)
    || Overlap(c.Note(), WORD_SIZE, a, width)
    || Overlap(c.User(), c.req, a, width)
  }

  /** What is left of items of a given width, at an offset from their key, once c is
      placed. */
  function Uncovered<T>(m: map<Addr, T>, offset: nat, width: nat, c: Chunk): map<Addr, T> {
    map a | a in m && !Covers(c, a + offset, width) :: m[a]
  }

  /** What is left of them once the bytes from lo to hi are given back. */
  function Outside<T>(m: map<Addr, T>, offset: nat, width: nat, lo: Addr, hi: Addr): map<Addr, T> {
    map a | a in m && (a + offset + width <= lo || hi <= a + offset) :: m[a]
  }

  lemma CoversWithin(c: Chunk, a: Addr, width: nat)
    requires ChunkOk(c) && (a + width <= c.addr || c.End() <= a)
    ensures !Covers(c, a, width)
  {
  }

  function Bases(v: View): (s: seq<Addr>)
    ensures |s| == |v|
  {
    seq(|v|, i requires 0 <= i < |v| => v[i].base)
  }

  function Addrs(b: Block): (s: seq<Addr>)
    ensures |s| == |b.chunks|
  {
    seq(|b.chunks|, j requires 0 <= j < |b.chunks| => b.chunks[j].addr)
  }

  ghost predicate ChunkStored(b: Block, c: Chunk, mem: Memory) {
    && c.addr in mem.minors && mem.minors[c.addr] == Minor(b.base, c.size, c.req)
    && c.addr in mem.magics && mem.magics[c.addr] == MAGIC
    && c.Note() in mem.notes && mem.notes[c.Note()] == c.pad
  }

  ghost predicate HeaderStored(b: Block, mem: Memory) {
    && b.base in mem.majors
    && mem.majors[b.base] == Major(b.pages, b.Size(), b.Usage(), At(Addrs(b), 0))
  }

  ghost predicate BlockStored(b: Block, mem: Memory) {
    && HeaderStored(b, mem)
    && Links(Addrs(b), mem.minorLinks)
    && forall j :: 0 <= j < |b.chunks| ==> ChunkStored(b, b.chunks[j], mem)
  }

  /** These bytes belong to some block. */
  ghost predicate Held(v: View, a: Addr, width: nat) {
    exists i :: 0 <= i < |v| && v[i].base <= a && a + width <= v[i].End()
  }

  /** The note at n lies in the block of the chunk it leads to. */
  ghost predicate NoteHeld(v: View, n: Addr, pad: nat) {
    MINOR_SIZE + pad <= n && Held(v, n - MINOR_SIZE - pad, MINOR_SIZE + pad + WORD_SIZE)
  }

  /** Every word that can still be read lies in memory that the heap holds. */
  ghost predicate AllHeld(v: View, mem: Memory) {
    && (forall a :: a in mem.magics ==> Held(v, a + MAGIC_OFFSET, WORD_SIZE))
    && (forall n :: n in mem.notes ==> NoteHeld(v, n, mem.notes[n]))
  }

  /** A live chunk starts at a. */
  ghost predicate HeadsLive(v: View, a: Addr) {
    exists i, j :: 0 <= i < |v| && 0 <= j < |v[i].chunks| && v[i].chunks[j].addr == a
  }

  /** Only live chunks still have the magic word of live chunks. */
  ghost predicate MagicIsLive(v: View, mem: Memory) {
    forall a :: a in mem.magics && mem.magics[a] == MAGIC ==> HeadsLive(v, a)
  }

  ghost predicate HeapStored(v: View, mem: Memory) {
    && Links(Bases(v), mem.majorLinks)
    && (forall i :: 0 <= i < |v| ==> BlockStored(v[i], mem))
    && (forall a :: a in mem.majors ==> a in Bases(v))
    && AllHeld(v, mem) && MagicIsLive(v, mem)
  }

  // Distinct addresses --------------------------------------------------------

  lemma AddrsDistinct(b: Block)
    requires BlockOk(b)
    ensures Distinct(Addrs(b))
    ensures forall a :: a in Addrs(b) ==> b.base + MAJOR_SIZE <= a < b.End()
  {
    hide ChunkOk;
    forall j, k | 0 <= j < k < |b.chunks|
      ensures b.chunks[j].addr != b.chunks[k].addr
    {
      ChunksDistinct(b, j, k);
    }
  }

  lemma BasesDistinct(v: View)
    requires HeapOk(v)
    ensures Distinct(Bases(v))
  {
    hide HeapOk;
    forall i, k | 0 <= i < k < |v|
      ensures v[i].base != v[k].base
    {
      BlocksApart(v, i, k);
    }
  }

  lemma BlocksDisjoint(v: View, i: nat, k: nat)
    requires HeapOk(v) && i < |v| && k < |v| && i != k
    ensures Chains.Disjoint(Addrs(v[k]), Addrs(v[i]))
  {
    BlocksApart(v, i, k);
    AddrsDistinct(v[i]);
    AddrsDistinct(v[k]);
  }

  // Framing -------------------------------------------------------------------

  /** Everything stored inside block b, and its header, is the same. */
  ghost predicate SameIn(b: Block, mem: Memory, mem': Memory) {
    && (b.base in mem.majors ==> b.base in mem'.majors && mem'.majors[b.base] == mem.majors[b.base])
    && AgreeOn(Addrs(b), mem.minorLinks, mem'.minorLinks)
    && (forall a :: b.base <= a && a + MINOR_SIZE <= b.End() && a in mem.minors ==>
          a in mem'.minors && mem'.minors[a] == mem.minors[a])
    && (forall a :: b.base <= a && a + MINOR_SIZE <= b.End() && a in mem.magics ==>
          a in mem'.magics && mem'.magics[a] == mem.magics[a])
    && (forall a :: b.base <= a && a + WORD_SIZE <= b.End() && a in mem.notes ==>
          a in mem'.notes && mem'.notes[a] == mem.notes[a])
  }

  lemma BlockFrame(b: Block, mem: Memory, mem': Memory)
    requires BlockOk(b) && BlockStored(b, mem) && SameIn(b, mem, mem')
    ensures BlockStored(b, mem')
  {
    LinksFrame(Addrs(b), mem.minorLinks, mem'.minorLinks);
    forall j | 0 <= j < |b.chunks|
      ensures ChunkStored(b, b.chunks[j], mem')
    {
      assert ChunkStored(b, b.chunks[j], mem) && ChunkOk(b.chunks[j]);
    }
  }

  // Placing a chunk -----------------------------------------------------------

  /** c may be placed in gap j of b. */
  ghost predicate Placeable(b: Block, j: nat, c: Chunk) {
    && BlockOk(b) && ChunkOk(c) && j <= |b.chunks|
    && c.addr == GapStart(b, j) && c.End() <= GapEnd(b, j)
  }

  /** All the writes that place c in gap j of b. The requested bytes are the caller's to
      write, so nothing that lay there can be read any more either. */
  ghost function Place(mem: Memory, b: Block, j: nat, c: Chunk): Memory
    requires j <= |b.chunks|
  {
    mem.(majors := mem.majors[b.base := Major(b.pages, b.Size(), b.Usage() + MINOR_SIZE + c.size,
                                              if j == 0 then c.addr else At(Addrs(b), 0))],
         minorLinks := LinkIn(Addrs(b), j, c.addr, mem.minorLinks),
         minors := Uncovered(mem.minors, 0, MINOR_SIZE, c)[c.addr := Minor(b.base, c.size, c.req)],
         magics := Uncovered(mem.magics, MAGIC_OFFSET, WORD_SIZE, c)[c.addr := MAGIC],
         notes := Uncovered(mem.notes, 0, WORD_SIZE, c)[c.Note() := c.pad])
  }

  lemma PlacedInside(b: Block, j: nat, c: Chunk)
    requires Placeable(b, j, c)
    ensures b.base + MAJOR_SIZE <= c.addr && c.End() <= b.End() && c.addr < c.Note() < c.End()
    ensures c.addr !in Addrs(b)
    ensures forall k :: 0 <= k < |b.chunks| ==> c.Note() != b.chunks[k].Note()
  {
    forall k | 0 <= k < |b.chunks|
      ensures c.addr != b.chunks[k].addr && c.Note() != b.chunks[k].Note()
    {
      GapNeighbours(b, j, k);
      assert ChunkOk(b.chunks[k]);
    }
    InsertMembers(b, j, c);
    assert Insert(b, j, c).chunks[j] == c;
  }

  lemma PlaceInBlock(b: Block, j: nat, c: Chunk, mem: Memory)
    requires Placeable(b, j, c) && BlockStored(b, mem)
    ensures BlockStored(Insert(b, j, c), Place(mem, b, j, c))
  {
    hide BlockOk, ChunkOk, ChunkStored, ChunkBytes, Links, LinkIn;
    PlacedInside(b, j, c);
    AddrsDistinct(b);
    InsertOk(b, j, c);
    PlaceChunks(b, j, c, mem);
    LinkInOk(Addrs(b), j, c.addr, mem.minorLinks);
    assert Addrs(Insert(b, j, c)) == InsertAt(Addrs(b), j, c.addr);
  }

  lemma PlaceChunks(b: Block, j: nat, c: Chunk, mem: Memory)
    requires Placeable(b, j, c) && BlockStored(b, mem)
    ensures var n := Insert(b, j, c);
            forall k :: 0 <= k < |n.chunks| ==> ChunkStored(n, n.chunks[k], Place(mem, b, j, c))
  {
    hide BlockOk, ChunkOk, LinkIn, Links, ChunkBytes, HeaderStored;
    PlacedInside(b, j, c);
    var n := Insert(b, j, c);
    forall k | 0 <= k < |n.chunks|
      ensures ChunkStored(n, n.chunks[k], Place(mem, b, j, c))
    {
      if k != j {
        var l := if k < j then k else k - 1;
        assert n.chunks[k] == b.chunks[l] && ChunkStored(b, b.chunks[l], mem);
        KeptApart(b, j, c, l);
      }
    }
  }

  /** The header and the note of any other chunk lie outside the new one. */
  lemma KeptApart(b: Block, j: nat, c: Chunk, l: nat)
    requires Placeable(b, j, c) && l < |b.chunks|
    ensures var d := b.chunks[l];
            && !Covers(c, d.addr, MINOR_SIZE) && !Covers(c, d.addr + MAGIC_OFFSET, WORD_SIZE)
            && !Covers(c, d.Note(), WORD_SIZE)
            && d.addr != c.addr && d.Note() != c.Note()
  {
    GapNeighbours(b, j, l);
    var d := b.chunks[l];
    assert ChunkOk(d);
    hide BlockOk, Covers;
    CoversWithin(c, d.addr, MINOR_SIZE);
    CoversWithin(c, d.addr + MAGIC_OFFSET, WORD_SIZE);
    CoversWithin(c, d.Note(), WORD_SIZE);
  }

  /** Placing a chunk keeps the whole heap stored. */
  lemma PlaceOk(v: View, i: nat, j: nat, c: Chunk, mem: Memory)
    requires HeapOk(v) && HeapStored(v, mem) && i < |v| && Placeable(v[i], j, c)
    ensures HeapOk(v[i := Insert(v[i], j, c)])
    ensures HeapStored(v[i := Insert(v[i], j, c)], Place(mem, v[i], j, c))
  {
    hide AllHeld, HeapOk, BlockOk, ChunkOk, BlockStored, Links, LinkIn, Uncovered, ChunkBytes, MagicIsLive;
    var b, mem' := Insert(v[i], j, c), Place(mem, v[i], j, c);
    InsertOk(v[i], j, c);
    ReplaceBlockOk(v, i, b);
    PlaceInBlock(v[i], j, c, mem);
    forall k | 0 <= k < |v| && k != i
      ensures BlockStored(v[k], mem')
    {
      PlaceElsewhere(v, i, j, c, mem, k);
    }
    PlaceHeld(v, i, j, c, mem);
    PlaceMagic(v, i, j, c, mem);
    assert Bases(v[i := b]) == Bases(v);
    assert v[i].base == Bases(v)[i];
  }

  lemma PlaceHeld(v: View, i: nat, j: nat, c: Chunk, mem: Memory)
    requires AllHeld(v, mem) && i < |v| && Placeable(v[i], j, c)
    ensures AllHeld(v[i := Insert(v[i], j, c)], Place(mem, v[i], j, c))
  {
    hide BlockOk, ChunkBytes, LinkIn, Held, Covers;
    PlacedInside(v[i], j, c);
    var w := v[i := Insert(v[i], j, c)];
    SameRanges(v, w);
    HeldBy(w, i, c.addr + MAGIC_OFFSET, WORD_SIZE);
    HeldBy(w, i, c.addr, MINOR_SIZE + c.pad + WORD_SIZE);
  }

  lemma PlaceMagic(v: View, i: nat, j: nat, c: Chunk, mem: Memory)
    requires MagicIsLive(v, mem) && i < |v| && Placeable(v[i], j, c)
    ensures MagicIsLive(v[i := Insert(v[i], j, c)], Place(mem, v[i], j, c))
  {
    hide BlockOk, ChunkBytes, LinkIn, Covers, ChunkOk;
    var n := Insert(v[i], j, c);
    var w := v[i := n];
    assert n.chunks[j] == c;
    HeadsAt(w, i, j);
    forall a: Addr | HeadsLive(v, a)
      ensures HeadsLive(w, a)
    {
      var k, l :| 0 <= k < |v| && 0 <= l < |v[k].chunks| && v[k].chunks[l].addr == a;
      if k == i {
        var l' := if l < j then l else l + 1;
        assert n.chunks[l'] == v[i].chunks[l];
        HeadsAt(w, i, l');
      } else {
        HeadsAt(w, k, l);
      }
    }
    hide HeadsLive;
  }

  lemma HeadsAt(v: View, i: nat, j: nat)
    requires i < |v| && j < |v[i].chunks|
    ensures HeadsLive(v, v[i].chunks[j].addr)
  {
  }

  lemma HeldBy(v: View, i: nat, a: Addr, width: nat)
    requires i < |v| && v[i].base <= a && a + width <= v[i].End()
    ensures Held(v, a, width)
  {
  }

  /** What blocks hold depends only on where they are. */
  lemma SameRanges(v: View, w: View)
    requires |v| == |w| && forall i :: 0 <= i < |v| ==> v[i].base == w[i].base && v[i].pages == w[i].pages
    ensures forall a: Addr, width: nat :: Held(v, a, width) ==> Held(w, a, width)
  {
    forall a: Addr, width: nat | Held(v, a, width)
      ensures Held(w, a, width)
    {
      var i :| 0 <= i < |v| && v[i].base <= a && a + width <= v[i].End();
      assert w[i].base == v[i].base && w[i].End() == v[i].End();
    }
  }

  lemma PlaceElsewhere(v: View, i: nat, j: nat, c: Chunk, mem: Memory, k: nat)
    requires HeapOk(v) && HeapStored(v, mem) && i < |v| && Placeable(v[i], j, c) && k < |v| && k != i
    ensures BlockStored(v[k], Place(mem, v[i], j, c))
  {
    hide AllHeld, MagicIsLive, Covers, Overlap;
    BlocksApart(v, i, k);
    PlacedInside(v[i], j, c);
    AddrsDistinct(v[k]);
    BlocksDisjoint(v, i, k);
    LinkInFrame(Addrs(v[i]), j, c.addr, mem.minorLinks, Addrs(v[k]));
    SameElsewhere(v[k], mem, v[i], j, c);
    BlockFrame(v[k], mem, Place(mem, v[i], j, c));
  }

  lemma SameElsewhere(d: Block, mem: Memory, b: Block, j: nat, c: Chunk)
    requires j <= |b.chunks| && ChunkOk(c) && (d.End() <= c.addr || c.End() <= d.base) && d.base != b.base
    requires AgreeOn(Addrs(d), mem.minorLinks, LinkIn(Addrs(b), j, c.addr, mem.minorLinks))
    requires !(d.base <= c.addr && c.addr + MINOR_SIZE <= d.End())
    ensures SameIn(d, mem, Place(mem, b, j, c))
  {
    hide Covers, AgreeOn, LinkIn;
    var mem' := Place(mem, b, j, c);
    forall a: Addr | d.base <= a && a + MINOR_SIZE <= d.End()
      ensures a in mem.minors ==> a in mem'.minors && mem'.minors[a] == mem.minors[a]
      ensures a in mem.magics ==> a in mem'.magics && mem'.magics[a] == mem.magics[a]
    {
      CoversWithin(c, a + 0, MINOR_SIZE);
      CoversWithin(c, a + MAGIC_OFFSET, WORD_SIZE);
    }
    forall a: Addr | d.base <= a && a + WORD_SIZE <= d.End()
      ensures a in mem.notes ==> a in mem'.notes && mem'.notes[a] == mem.notes[a]
    {
      CoversWithin(c, a + 0, WORD_SIZE);
    }
  }

  // Taking a chunk out --------------------------------------------------------

  /** All the writes that take chunk j out of b. */
  ghost function Take(mem: Memory, b: Block, j: nat): Memory
    requires j < |b.chunks|
  {
    mem.(majors := mem.majors[b.base := Major(b.pages, b.Size(), Remove(b, j).Usage(), At(Addrs(Remove(b, j)), 0))],
         minorLinks := LinkOut(Addrs(b), j, mem.minorLinks),
         magics := mem.magics[b.chunks[j].addr := DEAD])
  }

  lemma TakeInBlock(b: Block, j: nat, mem: Memory)
    requires BlockOk(b) && BlockStored(b, mem) && j < |b.chunks|
    ensures BlockStored(Remove(b, j), Take(mem, b, j))
  {
    hide BlockOk, ChunkStored, ChunkBytes, Links, LinkOut;
    AddrsDistinct(b);
    TakeChunks(b, j, mem);
    LinkOutOk(Addrs(b), j, mem.minorLinks);
    assert Addrs(Remove(b, j)) == RemoveAt(Addrs(b), j);
  }

  lemma TakeChunks(b: Block, j: nat, mem: Memory)
    requires BlockOk(b) && BlockStored(b, mem) && j < |b.chunks|
    ensures var n := Remove(b, j);
            forall k :: 0 <= k < |n.chunks| ==> ChunkStored(n, n.chunks[k], Take(mem, b, j))
  {
    hide BlockOk, Links, LinkOut, ChunkBytes;
    var n := Remove(b, j);
    forall k | 0 <= k < |n.chunks|
      ensures ChunkStored(n, n.chunks[k], Take(mem, b, j))
    {
      var l := if k < j then k else k + 1;
      assert n.chunks[k] == b.chunks[l] && ChunkStored(b, b.chunks[l], mem);
      ChunksDistinct(b, j, l);
    }
  }

  lemma TakeOk(v: View, i: nat, j: nat, mem: Memory)
    requires HeapOk(v) && HeapStored(v, mem) && i < |v| && j < |v[i].chunks|
    ensures HeapOk(v[i := Remove(v[i], j)])
    ensures HeapStored(v[i := Remove(v[i], j)], Take(mem, v[i], j))
  {
    hide AllHeld, HeapOk, BlockOk, BlockStored, Links, LinkOut, ChunkBytes, MagicIsLive;
    BlockOkAt(v, i);
    TakeInBlock(v[i], j, mem);
    var b, mem' := Remove(v[i], j), Take(mem, v[i], j);
    RemoveOk(v[i], j);
    ReplaceBlockOk(v, i, b);
    forall k | 0 <= k < |v| && k != i
      ensures BlockStored(v[k], mem')
    {
      TakeElsewhere(v, i, j, mem, k);
    }
    TakeHeld(v, i, j, mem);
    TakeMagic(v, i, j, mem);
    assert Bases(v[i := b]) == Bases(v);
    assert v[i].base == Bases(v)[i];
  }

  lemma TakeHeld(v: View, i: nat, j: nat, mem: Memory)
    requires AllHeld(v, mem) && HeapOk(v) && i < |v| && j < |v[i].chunks|
    ensures AllHeld(v[i := Remove(v[i], j)], Take(mem, v[i], j))
  {
    hide Held, HeapOk, ChunkOk, LinkOut, ChunkBytes;
    BlockOkAt(v, i);
    var w := v[i := Remove(v[i], j)];
    SameRanges(v, w);
    HeldBy(w, i, v[i].chunks[j].addr + MAGIC_OFFSET, WORD_SIZE);
  }

  lemma TakeMagic(v: View, i: nat, j: nat, mem: Memory)
    requires MagicIsLive(v, mem) && i < |v| && j < |v[i].chunks|
    ensures MagicIsLive(v[i := Remove(v[i], j)], Take(mem, v[i], j))
  {
    var w := v[i := Remove(v[i], j)];
    forall a: Addr | HeadsLive(v, a) && a != v[i].chunks[j].addr
      ensures HeadsLive(w, a)
    {
      var k, l :| 0 <= k < |v| && 0 <= l < |v[k].chunks| && v[k].chunks[l].addr == a;
      if k == i {
        var l' := if l < j then l else l - 1;
        assert w[i].chunks[l'] == v[i].chunks[l];
        HeadsAt(w, i, l');
      } else {
        HeadsAt(w, k, l);
      }
    }
    hide HeadsLive;
  }

  lemma TakeElsewhere(v: View, i: nat, j: nat, mem: Memory, k: nat)
    requires HeapOk(v) && HeapStored(v, mem) && i < |v| && j < |v[i].chunks| && k < |v| && k != i
    ensures BlockStored(v[k], Take(mem, v[i], j))
  {
    hide AllHeld, MagicIsLive;
    BlocksApart(v, i, k);
    AddrsDistinct(v[i]);
    BlocksDisjoint(v, i, k);
    LinkOutFrame(Addrs(v[i]), j, mem.minorLinks, Addrs(v[k]));
    assert Addrs(v[i])[j] == v[i].chunks[j].addr;
    BlockFrame(v[k], mem, Take(mem, v[i], j));
  }

  // Adding and dropping blocks ------------------------------------------------

  /** All the writes that put a new, empty block behind the last one. */
  ghost function AddBlock(mem: Memory, v: View, b: Block): Memory {
    mem.(majorLinks := LinkIn(Bases(v), |v|, b.base, mem.majorLinks),
         majors := mem.majors[b.base := Major(b.pages, b.Size(), MAJOR_SIZE, 0)])
  }

  lemma AddBlockOk(v: View, b: Block, mem: Memory)
    requires HeapOk(v) && HeapStored(v, mem) && BlockOk(b) && b.chunks == []
    requires forall i :: 0 <= i < |v| ==> Apart(v[i], b)
    ensures HeapOk(v + [b]) && HeapStored(v + [b], AddBlock(mem, v, b))
  {
    hide HeapOk, BlockOk, BlockStored, Links, LinkIn, Held, HeadsLive;
    AppendBlockOk(v, b);
    BasesDistinct(v);
    var w, mem' := v + [b], AddBlock(mem, v, b);
    forall i | 0 <= i < |v|
      ensures v[i].base != b.base && BlockStored(v[i], mem')
    {
      AddBlockFrame(v, b, mem, i);
    }
    FreshBlockStored(v, b, mem);
    LinkInOk(Bases(v), |v|, b.base, mem.majorLinks);
    assert Bases(w) == InsertAt(Bases(v), |v|, b.base);
    MoreHeld(v, b);
    MoreLive(v, b);
  }

  lemma MoreLive(v: View, b: Block)
    ensures forall a :: HeadsLive(v, a) ==> HeadsLive(v + [b], a)
  {
    forall a: Addr | HeadsLive(v, a)
      ensures HeadsLive(v + [b], a)
    {
      var k, l :| 0 <= k < |v| && 0 <= l < |v[k].chunks| && v[k].chunks[l].addr == a;
      assert (v + [b])[k] == v[k];
      HeadsAt(v + [b], k, l);
    }
  }

  lemma MoreHeld(v: View, b: Block)
    ensures forall a: Addr, width: nat :: Held(v, a, width) ==> Held(v + [b], a, width)
  {
    forall a: Addr, width: nat | Held(v, a, width)
      ensures Held(v + [b], a, width)
    {
      var i :| 0 <= i < |v| && v[i].base <= a && a + width <= v[i].End();
      assert (v + [b])[i] == v[i];
    }
  }

  lemma AddBlockFrame(v: View, b: Block, mem: Memory, i: nat)
    requires HeapOk(v + [b]) && HeapStored(v, mem) && i < |v|
    ensures v[i].base != b.base && BlockStored(v[i], AddBlock(mem, v, b))
  {
    hide BlockOk, BlockStored, Links, LinkIn;
    var w := v + [b];
    assert w[i] == v[i] && w[|v|] == b;
    BlocksApart(w, i, |v|);
    assert BlockOk(w[i]);
    BlockFrame(v[i], mem, AddBlock(mem, v, b));
  }

  lemma FreshBlockStored(v: View, b: Block, mem: Memory)
    requires b.chunks == []
    ensures BlockStored(b, AddBlock(mem, v, b))
  {
    assert Addrs(b) == [];
  }

  /** All the writes that unlink block i and give it back. Nothing in it can be read any
      more. */
  ghost function DropBlock(mem: Memory, v: View, i: nat): Memory
    requires i < |v|
  {
    mem.(majorLinks := LinkOut(Bases(v), i, mem.majorLinks), majors := mem.majors - {v[i].base},
         minors := Outside(mem.minors, 0, MINOR_SIZE, v[i].base, v[i].End()),
         magics := Outside(mem.magics, MAGIC_OFFSET, WORD_SIZE, v[i].base, v[i].End()),
         notes := Outside(mem.notes, 0, WORD_SIZE, v[i].base, v[i].End()))
  }

  lemma DropBlockStored(v: View, i: nat, mem: Memory)
    requires HeapOk(v) && HeapStored(v, mem) && i < |v|
    ensures HeapOk(v[..i] + v[i + 1..]) && HeapStored(v[..i] + v[i + 1..], DropBlock(mem, v, i))
  {
    hide HeapOk, BlockStored, Links, LinkOut, AllHeld, MagicIsLive;
    DropBlockOk(v, i);
    BasesDistinct(v);
    LinkOutOk(Bases(v), i, mem.majorLinks);
    DroppedBases(v, i, mem);
    var w, mem' := v[..i] + v[i + 1..], DropBlock(mem, v, i);
    assert Bases(w) == RemoveAt(Bases(v), i);
    forall k | 0 <= k < |w|
      ensures BlockStored(w[k], mem')
    {
      var l := if k < i then k else k + 1;
      assert w[k] == v[l];
      DropBlockFrame(v, i, mem, l);
    }
    DropHeld(v, i, mem);
    DropMagic(v, i, mem);
  }

  lemma DropHeld(v: View, i: nat, mem: Memory)
    requires AllHeld(v, mem) && i < |v|
    ensures AllHeld(v[..i] + v[i + 1..], DropBlock(mem, v, i))
  {
    hide Held;
    var w, mem' := v[..i] + v[i + 1..], DropBlock(mem, v, i);
    forall a | a in mem'.magics
      ensures Held(w, a + MAGIC_OFFSET, WORD_SIZE)
    {
      HeldElsewhere(v, i, a + MAGIC_OFFSET, WORD_SIZE, a + MAGIC_OFFSET);
    }
    forall n | n in mem'.notes
      ensures NoteHeld(w, n, mem'.notes[n])
    {
      assert NoteHeld(v, n, mem.notes[n]);
      HeldElsewhere(v, i, n - MINOR_SIZE - mem.notes[n], MINOR_SIZE + mem.notes[n] + WORD_SIZE, n);
    }
  }

  /** Bytes in one block, with a word outside block i, are in another block. */
  lemma HeldElsewhere(v: View, i: nat, a: Addr, width: nat, word: Addr)
    requires i < |v| && Held(v, a, width) && a <= word && word + WORD_SIZE <= a + width
    requires word + WORD_SIZE <= v[i].base || v[i].End() <= word
    ensures Held(v[..i] + v[i + 1..], a, width)
  {
    var l :| 0 <= l < |v| && v[l].base <= a && a + width <= v[l].End();
    HeldBy(v[..i] + v[i + 1..], if l < i then l else l - 1, a, width);
  }

  lemma DropMagic(v: View, i: nat, mem: Memory)
    requires MagicIsLive(v, mem) && HeapOk(v) && i < |v|
    ensures MagicIsLive(v[..i] + v[i + 1..], DropBlock(mem, v, i))
  {
    hide HeapOk, ChunkOk, ChunkBytes, LinkOut;
    var w := v[..i] + v[i + 1..];
    BlockOkAt(v, i);
    forall a: Addr | HeadsLive(v, a) && (a + MAGIC_OFFSET + WORD_SIZE <= v[i].base || v[i].End() <= a + MAGIC_OFFSET)
      ensures HeadsLive(w, a)
    {
      var k, l :| 0 <= k < |v| && 0 <= l < |v[k].chunks| && v[k].chunks[l].addr == a;
      var k' := if k < i then k else k - 1;
      assert k != i;
      assert w[k'] == v[k];
      HeadsAt(w, k', l);
    }
    hide HeadsLive, HeapOk, BlockOk;
  }

  lemma DropBlockFrame(v: View, i: nat, mem: Memory, l: nat)
    requires HeapOk(v) && HeapStored(v, mem) && i < |v| && l < |v| && l != i
    ensures BlockStored(v[l], DropBlock(mem, v, i))
  {
    hide BlockOk, BlockStored, Links, LinkOut;
    BlocksApart(v, i, l);
    BlockFrame(v[l], mem, DropBlock(mem, v, i));
  }

  lemma DroppedBases(v: View, i: nat, mem: Memory)
    requires HeapStored(v, mem) && i < |v|
    ensures forall a :: a in DropBlock(mem, v, i).majors ==> a in Bases(v[..i] + v[i + 1..])
  {
    hide BlockStored, Links, LinkOut;
    var w := v[..i] + v[i + 1..];
    forall a | a in DropBlock(mem, v, i).majors
      ensures a in Bases(w)
    {
      var l :| 0 <= l < |v| && Bases(v)[l] == a;
      assert Bases(w)[if l < i then l else l - 1] == a;
    }
  }
}
