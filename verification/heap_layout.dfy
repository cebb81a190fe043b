// The layout of liballoc's heap: system blocks, each with a header and a list of
// chunks in address order. Everything here is about values; the allocator that
// keeps these lists linked in memory is in liballoc.dfy.

module HeapLayout {

  const MAJOR_SIZE: nat := 24
  const MINOR_SIZE: nat := 24
  const ALIGN_INFO: nat := 16
  const PAGE_SIZE: nat := 4096
  const PAGE_COUNT: nat := 16
  const WORD: nat := 0x1_0000_0000

  type Addr = nat

  /** An allocated piece: header at addr, then size bytes that hold the alignment
      word, the padding and the caller's bytes. */
  datatype Chunk = Chunk(addr: Addr, size: nat, req: nat, pad: nat, align: nat) {
    /** The pointer the caller holds. */
    function User(): Addr {
      addr + MINOR_SIZE + ALIGN_INFO + pad
    }

    /** Where the padding is recorded. */
    function Note(): Addr {
      addr + MINOR_SIZE + pad
    }

    function End(): Addr {
      addr + MINOR_SIZE + size
    }
  }

  datatype Block = Block(base: Addr, pages: nat, chunks: seq<Chunk>) {
    function Size(): nat {
      pages * PAGE_SIZE
    }

    function End(): Addr {
      base + Size()
    }

    /** The bytes the header counts as used. */
    function Usage(): nat {
      MAJOR_SIZE + ChunkBytes(chunks)
    }
  }

  type View = seq<Block>

  function ChunkBytes(cs: seq<Chunk>): nat {
    if cs == [] then 0 else MINOR_SIZE + cs[0].size + ChunkBytes(cs[1..])
  }

  // Well-formed heaps ---------------------------------------------------------

  /** The caller's bytes fit behind header, alignment word and padding, and start
      where the caller asked. */
  ghost predicate ChunkOk(c: Chunk) {
    && ALIGN_INFO + c.pad + c.req <= c.size
    && c.align > 0 && c.User() % c.align == 0
  }

  /** Chunks lie behind the block header, in address order, without overlap. */
  ghost predicate BlockOk(b: Block) {
    && 0 < b.base && MAJOR_SIZE <= b.Size() && b.End() < WORD
    && (forall j :: 0 <= j < |b.chunks| ==>
          ChunkOk(b.chunks[j]) && b.base + MAJOR_SIZE <= b.chunks[j].addr && b.chunks[j].End() <= b.End())
    && (forall j, k :: 0 <= j < k < |b.chunks| ==> b.chunks[j].End() <= b.chunks[k].addr)
  }

  ghost predicate Apart(a: Block, b: Block) {
    a.End() <= b.base || b.End() <= a.base
  }

  ghost predicate HeapOk(v: View) {
    && (forall i :: 0 <= i < |v| ==> BlockOk(v[i]))
    && (forall i, k :: 0 <= i < k < |v| ==> Apart(v[i], v[k]))
  }

  ghost predicate NoEmptyBlock(v: View) {
    forall i :: 0 <= i < |v| ==> v[i].chunks != []
  }

  /** The chunks currently handed out. */
  ghost function Live(v: View): set<Chunk> {
    set i, j | 0 <= i < |v| && 0 <= j < |v[i].chunks| :: v[i].chunks[j]
  }

  lemma BlockOkAt(v: View, i: nat)
    requires HeapOk(v) && i < |v|
    ensures BlockOk(v[i])
  {
  }

  lemma BlocksApart(v: View, i: nat, k: nat)
    requires HeapOk(v) && i < |v| && k < |v| && i != k
    ensures Apart(v[i], v[k]) && v[i].base != v[k].base
  {
    if i < k {
      assert Apart(v[i], v[k]);
    } else {
      assert Apart(v[k], v[i]);
    }
  }

  // Safety --------------------------------------------------------------------

  ghost predicate RangesApart(a: Addr, aEnd: Addr, b: Addr, bEnd: Addr) {
    aEnd <= b || bEnd <= a
  }

  /** Distinct live chunks never share a byte: not the callers' bytes, not the
      headers, not the alignment words. */
  lemma LiveChunksDisjoint(v: View, c: Chunk, d: Chunk)
    requires HeapOk(v) && c in Live(v) && d in Live(v) && c != d
    ensures RangesApart(c.addr, c.End(), d.addr, d.End())
  {
    var i, j :| 0 <= i < |v| && 0 <= j < |v[i].chunks| && c == v[i].chunks[j];
    var i', j' :| 0 <= i' < |v| && 0 <= j' < |v[i'].chunks| && d == v[i'].chunks[j'];
    if i != i' {
      BlocksApart(v, i, i');
    } else if j < j' {
      assert v[i].chunks[j].End() <= v[i].chunks[j'].addr;
    } else {
      assert v[i].chunks[j'].End() <= v[i].chunks[j].addr;
    }
  }

  /** What a caller may rely on for each pointer it holds: the requested bytes lie
      in memory obtained from the system, behind the bookkeeping of their own
      chunk, at the requested alignment, and away from every block header and
      every other live chunk. */
  lemma CallerBytesSafe(v: View, c: Chunk)
    requires HeapOk(v) && c in Live(v)
    ensures c.User() % c.align == 0 && c.addr + MINOR_SIZE + ALIGN_INFO <= c.User() && c.User() + c.req <= c.End()
    ensures exists i :: 0 <= i < |v| && v[i].base + MAJOR_SIZE <= c.addr && c.End() <= v[i].End()
    ensures forall i :: 0 <= i < |v| ==> RangesApart(c.User(), c.User() + c.req, v[i].base, v[i].base + MAJOR_SIZE)
    ensures forall d :: d in Live(v) && d != c ==> RangesApart(c.User(), c.User() + c.req, d.addr, d.End())
  {
    var i, j :| 0 <= i < |v| && 0 <= j < |v[i].chunks| && c == v[i].chunks[j];
    assert ChunkOk(v[i].chunks[j]);
    forall k | 0 <= k < |v|
      ensures RangesApart(c.User(), c.User() + c.req, v[k].base, v[k].base + MAJOR_SIZE)
    {
      if k != i {
        BlocksApart(v, i, k);
      }
    }
    forall d | d in Live(v) && d != c
      ensures RangesApart(c.User(), c.User() + c.req, d.addr, d.End())
    {
      LiveChunksDisjoint(v, c, d);
    }
  }

  /** A pointer identifies its chunk. */
  lemma UserDetermines(v: View, c: Chunk, d: Chunk)
    requires HeapOk(v) && c in Live(v) && d in Live(v) && c.User() == d.User()
    ensures c == d
  {
    if c != d {
      LiveChunksDisjoint(v, c, d);
    }
  }

  // Gaps ----------------------------------------------------------------------

  /** Gap j lies before chunk j; the last one runs to the end of the block. */
  function GapStart(b: Block, j: nat): Addr
    requires j <= |b.chunks|
  {
    if j == 0 then b.base + MAJOR_SIZE else b.chunks[j - 1].End()
  }

  function GapEnd(b: Block, j: nat): Addr
    requires j <= |b.chunks|
  {
    if j < |b.chunks| then b.chunks[j].addr else b.End()
  }

  ghost predicate NoRoom(b: Block, need: nat) {
    forall j :: 0 <= j <= |b.chunks| ==> GapEnd(b, j) < GapStart(b, j) + need
  }

  /** The bytes of the chunks before gap j end at or before the gap. */
  lemma {:induction false} BytesBeforeGap(b: Block, j: nat)
    requires BlockOk(b) && j <= |b.chunks|
    ensures b.base + MAJOR_SIZE + ChunkBytes(b.chunks[..j]) <= GapStart(b, j)
  {
    if j > 0 {
      BytesBeforeGap(b, j - 1);
      assert b.chunks[..j] == b.chunks[..j - 1] + [b.chunks[j - 1]];
      ChunkBytesAppend(b.chunks[..j - 1], [b.chunks[j - 1]]);
      assert j > 1 ==> b.chunks[j - 2].End() <= b.chunks[j - 1].addr;
    } else {
      assert b.chunks[..0] == [];
    }
  }

  lemma {:induction false} BytesAfterGap(b: Block, j: nat)
    requires BlockOk(b) && j <= |b.chunks|
    ensures GapEnd(b, j) + ChunkBytes(b.chunks[j..]) <= b.End()
    decreases |b.chunks| - j
  {
    if j < |b.chunks| {
      BytesAfterGap(b, j + 1);
      assert b.chunks[j..][1..] == b.chunks[j + 1..];
      assert j + 1 < |b.chunks| ==> b.chunks[j].End() <= b.chunks[j + 1].addr;
    }
  }

  lemma {:induction false} ChunkBytesAppend(xs: seq<Chunk>, ys: seq<Chunk>)
    ensures ChunkBytes(xs + ys) == ChunkBytes(xs) + ChunkBytes(ys)
  {
    if xs == [] {
      assert xs + ys == ys;
    } else {
      ChunkBytesAppend(xs[1..], ys);
      assert (xs + ys)[1..] == xs[1..] + ys;
    }
  }

  /** No gap is larger than the block's free bytes, so a block with too few free
      bytes has no room, and usage never exceeds size. */
  lemma GapAtMostFree(b: Block, j: nat)
    requires BlockOk(b) && j <= |b.chunks|
    ensures GapStart(b, j) <= GapEnd(b, j)
    ensures GapEnd(b, j) - GapStart(b, j) <= b.Size() - b.Usage()
  {
    hide ChunkOk, ChunkBytes;
    BytesBeforeGap(b, j);
    BytesAfterGap(b, j);
    assert b.chunks == b.chunks[..j] + b.chunks[j..];
    ChunkBytesAppend(b.chunks[..j], b.chunks[j..]);
    if 0 < j < |b.chunks| {
      assert b.chunks[j - 1].End() <= b.chunks[j].addr;
    }
  }

  // Inserting and removing chunks ---------------------------------------------

  function Insert(b: Block, j: nat, c: Chunk): Block
    requires j <= |b.chunks|
  {
    b.(chunks := b.chunks[..j] + [c] + b.chunks[j..])
  }

  function Remove(b: Block, j: nat): Block
    requires j < |b.chunks|
  {
    b.(chunks := b.chunks[..j] + b.chunks[j + 1..])
  }

  lemma ChunkBytesInsert(cs: seq<Chunk>, j: nat, c: Chunk)
    requires j <= |cs|
    ensures ChunkBytes(cs[..j] + [c] + cs[j..]) == ChunkBytes(cs) + MINOR_SIZE + c.size
  {
    hide ChunkBytes;
    ChunkBytesOne(c);
    ChunkBytesAppend(cs[..j], [c]);
    ChunkBytesAppend(cs[..j] + [c], cs[j..]);
    ChunkBytesAppend(cs[..j], cs[j..]);
    assert cs == cs[..j] + cs[j..];
  }

  lemma ChunkBytesOne(c: Chunk)
    ensures ChunkBytes([c]) == MINOR_SIZE + c.size
  {
    assert [c][1..] == [];
  }

  lemma ChunkBytesRemove(cs: seq<Chunk>, j: nat)
    requires j < |cs|
    ensures ChunkBytes(cs[..j] + cs[j + 1..]) == ChunkBytes(cs) - MINOR_SIZE - cs[j].size
  {
    hide ChunkBytes;
    var rest := cs[..j] + cs[j + 1..];
    assert rest[..j] == cs[..j] && rest[j..] == cs[j + 1..];
    assert cs[..j] + [cs[j]] + cs[j + 1..] == cs;
    ChunkBytesInsert(rest, j, cs[j]);
  }

  /** A chunk placed at the start of a large enough gap keeps the block in order. */
  lemma InsertOk(b: Block, j: nat, c: Chunk)
    requires BlockOk(b) && j <= |b.chunks| && ChunkOk(c)
    requires c.addr == GapStart(b, j) && c.End() <= GapEnd(b, j)
    ensures BlockOk(Insert(b, j, c))
    ensures Insert(b, j, c).Usage() == b.Usage() + MINOR_SIZE + c.size
  {
    hide ChunkOk, ChunkBytes;
    var n := Insert(b, j, c);
    forall k | 0 <= k < |b.chunks|
      ensures k < j ==> b.chunks[k].End() <= c.addr
      ensures k >= j ==> c.End() <= b.chunks[k].addr
    {
      GapNeighbours(b, j, k);
    }
    forall k, l | 0 <= k < l < |n.chunks|
      ensures n.chunks[k].End() <= n.chunks[l].addr
    {
      var k', l' := if k > j then k - 1 else k, if l > j then l - 1 else l;
      assert k != j ==> n.chunks[k] == b.chunks[k'];
      assert l != j ==> n.chunks[l] == b.chunks[l'];
    }
    InsertMembers(b, j, c);
    ChunkBytesInsert(b.chunks, j, c);
  }

  lemma InsertMembers(b: Block, j: nat, c: Chunk)
    requires BlockOk(b) && j <= |b.chunks| && ChunkOk(c)
    requires c.addr == GapStart(b, j) && c.End() <= GapEnd(b, j)
    ensures var n := Insert(b, j, c);
            forall k :: 0 <= k < |n.chunks| ==>
              ChunkOk(n.chunks[k]) && n.base + MAJOR_SIZE <= n.chunks[k].addr && n.chunks[k].End() <= n.End()
  {
    hide ChunkOk;
    var n := Insert(b, j, c);
    forall k | 0 <= k < |n.chunks|
      ensures ChunkOk(n.chunks[k]) && n.base + MAJOR_SIZE <= n.chunks[k].addr && n.chunks[k].End() <= n.End()
    {
      if k != j {
        assert n.chunks[k] == b.chunks[if k > j then k - 1 else k];
      }
    }
  }

  /** Every chunk lies wholly before or wholly behind each gap. */
  lemma GapNeighbours(b: Block, j: nat, k: nat)
    requires BlockOk(b) && j <= |b.chunks| && k < |b.chunks|
    ensures k < j ==> b.chunks[k].End() <= GapStart(b, j)
    ensures k >= j ==> GapEnd(b, j) <= b.chunks[k].addr
  {
    hide ChunkOk;
    if k < j - 1 {
      assert b.chunks[k].End() <= b.chunks[j - 1].addr;
    } else if k > j {
      assert b.chunks[j].End() <= b.chunks[k].addr;
    }
  }

  lemma RemoveOk(b: Block, j: nat)
    requires BlockOk(b) && j < |b.chunks|
    ensures BlockOk(Remove(b, j))
    ensures Remove(b, j).Usage() == b.Usage() - MINOR_SIZE - b.chunks[j].size
  {
    hide ChunkOk, ChunkBytes;
    var n := Remove(b, j);
    assert forall k :: 0 <= k < |n.chunks| ==> n.chunks[k] == b.chunks[if k >= j then k + 1 else k];
    ChunkBytesRemove(b.chunks, j);
  }

  // Whole heaps ---------------------------------------------------------------

  lemma ReplaceBlockOk(v: View, i: nat, b: Block)
    requires HeapOk(v) && i < |v| && BlockOk(b) && b.base == v[i].base && b.pages == v[i].pages
    ensures HeapOk(v[i := b])
  {
    hide BlockOk;
    var w := v[i := b];
    forall k, l | 0 <= k < l < |w|
      ensures Apart(w[k], w[l])
    {
      assert Apart(v[k], v[l]);
    }
  }

  lemma AppendBlockOk(v: View, b: Block)
    requires HeapOk(v) && BlockOk(b)
    requires forall i :: 0 <= i < |v| ==> Apart(v[i], b)
    ensures HeapOk(v + [b])
  {
    hide BlockOk;
  }

  lemma DropBlockOk(v: View, i: nat)
    requires HeapOk(v) && i < |v|
    ensures HeapOk(v[..i] + v[i + 1..])
  {
    hide BlockOk, Apart;
    var w := v[..i] + v[i + 1..];
    assert forall k :: 0 <= k < |w| ==> w[k] == v[if k < i then k else k + 1];
  }

  lemma LiveMember(v: View, i: nat, j: nat)
    requires i < |v| && j < |v[i].chunks|
    ensures v[i].chunks[j] in Live(v)
  {
  }

  ghost predicate InBlock(b: Block, c: Chunk) {
    c in b.chunks
  }

  lemma LiveByBlocks(v: View, c: Chunk)
    ensures c in Live(v) <==> exists i :: 0 <= i < |v| && InBlock(v[i], c)
  {
    if i :| 0 <= i < |v| && InBlock(v[i], c) {
      var j :| 0 <= j < |v[i].chunks| && v[i].chunks[j] == c;
    }
  }

  /** Replacing a block changes the live chunks by what that block gains and loses. */
  lemma LiveReplace(v: View, i: nat, b: Block, c: Chunk)
    requires HeapOk(v) && i < |v| && NotElsewhere(v, i, c)
    ensures (forall d :: InBlock(b, d) <==> InBlock(v[i], d) || d == c) ==> Live(v[i := b]) == Live(v) + {c}
    ensures (forall d :: InBlock(b, d) <==> InBlock(v[i], d) && d != c) ==> Live(v[i := b]) == Live(v) - {c}
  {
    hide HeapOk, Live;
    var w := v[i := b];
    forall d
      ensures d in Live(w) <==> InBlock(b, d) || exists k :: 0 <= k < |v| && k != i && InBlock(v[k], d)
      ensures d in Live(v) <==> InBlock(v[i], d) || exists k :: 0 <= k < |v| && k != i && InBlock(v[k], d)
    {
      LiveByBlocks(w, d);
      LiveByBlocks(v, d);
      assert forall k :: 0 <= k < |v| && k != i ==> w[k] == v[k];
      assert w[i] == b;
    }
  }

  ghost predicate NotElsewhere(v: View, i: nat, c: Chunk) {
    forall k :: 0 <= k < |v| && k != i ==> !InBlock(v[k], c)
  }

  /** A chunk inside block i is in no other block. */
  lemma InsideOne(v: View, i: nat, c: Chunk)
    requires HeapOk(v) && i < |v| && v[i].base <= c.addr < v[i].End()
    ensures NotElsewhere(v, i, c)
  {
    forall k | 0 <= k < |v| && k != i
      ensures !InBlock(v[k], c)
    {
      BlocksApart(v, i, k);
      assert BlockOk(v[k]);
    }
  }

  lemma LiveInsert(v: View, i: nat, j: nat, c: Chunk)
    requires HeapOk(v) && i < |v| && j <= |v[i].chunks|
    requires v[i].base <= c.addr < v[i].End()
    ensures Live(v[i := Insert(v[i], j, c)]) == Live(v) + {c}
  {
    InsideOne(v, i, c);
    var b := Insert(v[i], j, c);
    forall d
      ensures InBlock(b, d) <==> InBlock(v[i], d) || d == c
    {
      assert v[i].chunks == v[i].chunks[..j] + v[i].chunks[j..];
    }
    LiveReplace(v, i, b, c);
  }

  lemma LiveRemove(v: View, i: nat, j: nat)
    requires HeapOk(v) && i < |v| && j < |v[i].chunks|
    ensures Live(v[i := Remove(v[i], j)]) == Live(v) - {v[i].chunks[j]}
  {
    var c, b := v[i].chunks[j], Remove(v[i], j);
    assert BlockOk(v[i]);
    InsideOne(v, i, c);
    forall d
      ensures InBlock(b, d) <==> InBlock(v[i], d) && d != c
    {
      RemoveMembers(v[i], j, d);
    }
    LiveReplace(v, i, b, c);
  }

  lemma ChunksDistinct(b: Block, j: nat, k: nat)
    requires BlockOk(b) && j < |b.chunks| && k < |b.chunks| && j != k
    ensures b.chunks[j].addr != b.chunks[k].addr
  {
    hide ChunkOk;
    assert if k < j then b.chunks[k].End() <= b.chunks[j].addr else b.chunks[j].End() <= b.chunks[k].addr;
  }

  lemma RemoveMembers(b: Block, j: nat, d: Chunk)
    requires BlockOk(b) && j < |b.chunks|
    ensures InBlock(Remove(b, j), d) <==> InBlock(b, d) && d != b.chunks[j]
  {
    hide BlockOk;
    var n := Remove(b, j);
    if InBlock(n, d) {
      var k :| 0 <= k < |n.chunks| && n.chunks[k] == d;
      var k' := if k < j then k else k + 1;
      assert d == b.chunks[k'];
      ChunksDistinct(b, j, k');
    }
    if InBlock(b, d) && d != b.chunks[j] {
      var k :| 0 <= k < |b.chunks| && b.chunks[k] == d;
      assert n.chunks[if k < j then k else k - 1] == d;
    }
  }

  lemma LiveEmptyBlock(v: View, i: nat)
    requires i < |v| && v[i].chunks == []
    ensures Live(v[..i] + v[i + 1..]) == Live(v)
  {
    hide Live;
    var w := v[..i] + v[i + 1..];
    forall d
      ensures d in Live(w) <==> d in Live(v)
    {
      LiveByBlocks(v, d);
      LiveByBlocks(w, d);
      assert forall k :: 0 <= k < i ==> w[k] == v[k];
      assert forall k :: i < k < |v| ==> w[k - 1] == v[k];
    }
  }

  lemma LiveAppendEmpty(v: View, b: Block)
    requires b.chunks == []
    ensures Live(v + [b]) == Live(v)
  {
    assert (v + [b])[..|v|] + (v + [b])[|v| + 1..] == v;
    LiveEmptyBlock(v + [b], |v|);
  }

  // Totals --------------------------------------------------------------------

  function SizeSum(cs: seq<Chunk>): nat {
    if cs == [] then 0 else cs[0].size + SizeSum(cs[1..])
  }

  /** Bytes obtained from the system. */
  function TotalSize(v: View): nat {
    if v == [] then 0 else v[0].Size() + TotalSize(v[1..])
  }

  /** Bytes in the bodies of live chunks. */
  function TotalInUse(v: View): nat {
    if v == [] then 0 else SizeSum(v[0].chunks) + TotalInUse(v[1..])
  }

  lemma {:induction false} SizeSumIs(cs: seq<Chunk>)
    ensures ChunkBytes(cs) == MINOR_SIZE * |cs| + SizeSum(cs)
  {
    if cs != [] {
      SizeSumIs(cs[1..]);
    }
  }

  lemma {:induction false} TotalsAppend(v: View, w: View)
    ensures TotalSize(v + w) == TotalSize(v) + TotalSize(w)
    ensures TotalInUse(v + w) == TotalInUse(v) + TotalInUse(w)
  {
    if v == [] {
      assert v + w == w;
    } else {
      TotalsAppend(v[1..], w);
      assert (v + w)[1..] == v[1..] + w;
    }
  }

  lemma TotalsOne(b: Block)
    ensures TotalSize([b]) == b.Size() && TotalInUse([b]) == SizeSum(b.chunks)
  {
    assert [b][1..] == [];
  }

  lemma TotalsSplit(v: View, i: nat)
    requires i < |v|
    ensures TotalSize(v) == TotalSize(v[..i]) + v[i].Size() + TotalSize(v[i + 1..])
    ensures TotalInUse(v) == TotalInUse(v[..i]) + SizeSum(v[i].chunks) + TotalInUse(v[i + 1..])
  {
    hide TotalSize, TotalInUse, SizeSum;
    assert v == v[..i] + ([v[i]] + v[i + 1..]);
    TotalsAppend(v[..i], [v[i]] + v[i + 1..]);
    TotalsAppend([v[i]], v[i + 1..]);
    TotalsOne(v[i]);
  }

  lemma TotalsReplace(v: View, i: nat, b: Block)
    requires i < |v| && b.pages == v[i].pages
    ensures TotalSize(v[i := b]) == TotalSize(v)
    ensures TotalInUse(v[i := b]) == TotalInUse(v) - SizeSum(v[i].chunks) + SizeSum(b.chunks)
  {
    var w := v[i := b];
    TotalsSplit(v, i);
    TotalsSplit(w, i);
    assert w[..i] == v[..i] && w[i + 1..] == v[i + 1..];
  }

  lemma TotalsDrop(v: View, i: nat)
    requires i < |v| && v[i].chunks == []
    ensures TotalSize(v[..i] + v[i + 1..]) == TotalSize(v) - v[i].Size()
    ensures TotalInUse(v[..i] + v[i + 1..]) == TotalInUse(v)
  {
    TotalsSplit(v, i);
    TotalsAppend(v[..i], v[i + 1..]);
  }

  lemma SizeSumInsert(b: Block, j: nat, c: Chunk)
    requires j <= |b.chunks|
    ensures SizeSum(Insert(b, j, c).chunks) == SizeSum(b.chunks) + c.size
  {
    SizeSumIs(b.chunks);
    SizeSumIs(Insert(b, j, c).chunks);
    ChunkBytesInsert(b.chunks, j, c);
  }

  lemma SizeSumRemove(b: Block, j: nat)
    requires j < |b.chunks|
    ensures SizeSum(Remove(b, j).chunks) == SizeSum(b.chunks) - b.chunks[j].size
  {
    SizeSumIs(b.chunks);
    SizeSumIs(Remove(b, j).chunks);
    ChunkBytesRemove(b.chunks, j);
  }

  /** A heap without empty blocks and without live chunks is empty: nothing is
      kept from the system. */
  lemma NothingKept(v: View)
    requires NoEmptyBlock(v) && Live(v) == {}
    ensures v == []
  {
    if v != [] {
      LiveMember(v, 0, 0);
    }
  }

  // Sizes in 32-bit arithmetic ------------------------------------------------

  /** The body size computed for a request. */
  function BodySize(req: nat, align: nat): nat {
    (req + align + ALIGN_INFO) % WORD
  }

  /** The pages asked of the system for a body of that size. */
  function PagesFor(size: nat): nat {
    var st := (size + MAJOR_SIZE + MINOR_SIZE) % WORD;
    var pages := if st % PAGE_SIZE == 0 then st / PAGE_SIZE else st / PAGE_SIZE + 1;
    if pages < PAGE_COUNT then PAGE_COUNT else pages
  }

  /** What the size tests compare with: a body and its header. */
  function Need(size: nat): nat {
    (size + MINOR_SIZE) % WORD
  }

  /** No sum in the size computation leaves 32 bits. */
  predicate Fits(req: nat, align: nat) {
    req + align + ALIGN_INFO + MAJOR_SIZE + MINOR_SIZE < WORD
  }

  /** Enough pages, and no more than it takes. */
  lemma PagesMeaning(size: nat, k: nat)
    requires size + MAJOR_SIZE + MINOR_SIZE < WORD
    ensures PagesFor(size) >= 16 && PagesFor(size) * 4096 >= size + 48
    ensures k >= 16 && k * 4096 >= size + 48 ==> PagesFor(size) <= k
  {
  }

  lemma PagesWrapped(size: nat)
    requires WORD <= size + MAJOR_SIZE + MINOR_SIZE && size < WORD
    ensures PagesFor(size) == 16
  {
  }

  /** The chunk has room for its padding and the caller's req bytes, and lies in b. */
  predicate Serves(b: Block, c: Chunk, req: nat) {
    ALIGN_INFO + c.pad + req <= c.size && c.End() <= b.End()
  }

  /** A gap that passes the size test: large enough by it, or all of a new block. */
  predicate Accepts(b: Block, j: nat, size: nat) {
    && j <= |b.chunks|
    && ((b.chunks == [] && b.pages == PagesFor(size)) || GapEnd(b, j) - GapStart(b, j) >= Need(size))
  }

  /** A chunk made for a request and put into a gap that passes the test serves the request
      exactly when the size computation does not wrap. */
  lemma ServesIffFits(b: Block, j: nat, c: Chunk, req: nat, align: nat)
    requires req < WORD && align <= 0x8000_0000 && c.pad < align && c.size == BodySize(req, align)
    requires BlockOk(b) && Accepts(b, j, c.size) && c.addr == GapStart(b, j)
    ensures Serves(b, c, req) <==> Fits(req, align)
    ensures Fits(req, align) ==> c.End() <= GapEnd(b, j)
  {
    hide ChunkOk;
    GapAtMostFree(b, j);
    BehindHeader(b, j);
  }

  lemma BehindHeader(b: Block, j: nat)
    requires BlockOk(b) && j <= |b.chunks|
    ensures b.base + MAJOR_SIZE <= GapStart(b, j) && GapEnd(b, j) <= b.End()
  {
    assert j < |b.chunks| ==> ChunkOk(b.chunks[j]);
    assert j > 0 ==> ChunkOk(b.chunks[j - 1]);
  }

  /** A request of 4 GiB less 16 bytes, aligned to 4, gets a body of 4 bytes in a new block of
      16 pages; one of 4 GiB less 68 bytes gets 4 GiB less 48 bytes in such a block. */
  lemma WrappedRequests(base: Addr)
    requires 0 < base && base + 16 * PAGE_SIZE < WORD
    ensures var b := Block(base, PagesFor(BodySize(0xFFFF_FFF0, 4)), []);
            var c := Chunk(base + MAJOR_SIZE, BodySize(0xFFFF_FFF0, 4), 0xFFFF_FFF0, 0, 4);
            BlockOk(b) && Accepts(b, 0, c.size) && b.pages == 16 && c.size == 4 && !Serves(b, c, c.req)
    ensures var b := Block(base, PagesFor(BodySize(0xFFFF_FFBC, 4)), []);
            var c := Chunk(base + MAJOR_SIZE, BodySize(0xFFFF_FFBC, 4), 0xFFFF_FFBC, 0, 4);
            BlockOk(b) && Accepts(b, 0, c.size) && b.pages == 16 && c.size == 0xFFFF_FFD0 && c.End() > b.End()
  {
  }
}
