// Where malloc looks for room: the order of the blocks, the gap it takes, and the block it
// will begin with next time. Everything here is about values and says which answer is the
// right one; liballoc.dfy proves that the search gives it.

module HeapSearch {
  import opened Division
  import opened HeapLayout
  import opened HeapMemory

  function FreeBytes(b: Block): int {
    b.Size() - b.Usage()
  }

  /** The bytes in the first n gaps. */
  function GapBytes(b: Block, n: nat): int
    requires n <= |b.chunks| + 1
  {
    if n == 0 then 0 else GapBytes(b, n - 1) + (GapEnd(b, n - 1) - GapStart(b, n - 1))
  }

  lemma {:induction false} BytesUpTo(b: Block, n: nat)
    requires n <= |b.chunks|
    ensures GapStart(b, n) == b.base + 24 + ChunkBytes(b.chunks[..n]) + GapBytes(b, n)
  {
    if n == 0 {
      assert b.chunks[..0] == [];
    } else {
      BytesUpTo(b, n - 1);
      assert b.chunks[..n] == b.chunks[..n - 1] + [b.chunks[n - 1]];
      ChunkBytesAppend(b.chunks[..n - 1], [b.chunks[n - 1]]);
    }
  }

  /** The bytes counted as free are those in the gaps: nothing is lost or counted twice. */
  lemma FreeBytesAreGaps(b: Block)
    ensures FreeBytes(b) == GapBytes(b, |b.chunks| + 1)
  {
    BytesUpTo(b, |b.chunks|);
    assert b.chunks[..|b.chunks|] == b.chunks;
  }

  ghost function IndexOf(v: View, a: Addr): (i: nat)
    requires a in Bases(v)
    ensures i < |v| && v[i].base == a
  {
    var i :| 0 <= i < |v| && Bases(v)[i] == a;
    i
  }

  lemma IndexOfIs(v: View, i: nat)
    requires HeapOk(v) && i < |v|
    ensures v[i].base in Bases(v) && IndexOf(v, v[i].base) == i
  {
    assert Bases(v)[i] == v[i].base;
    var k := IndexOf(v, v[i].base);
    if k != i {
      BlocksApart(v, i, k);
    }
  }

  // The order of the blocks ---------------------------------------------------

  /** The blocks from the i-th to the last. */
  ghost function From(i: nat, n: nat): seq<nat>
    requires i <= n
  {
    seq(n - i, k requires k >= 0 => i + k)
  }

  /** One round from block s and another from the root, or only the latter. */
  ghost function OrderFrom(n: nat, s: nat, bet: bool): seq<nat>
    requires s <= n
  {
    if bet then From(s, n) + From(0, n) else From(0, n)
  }

  /** The search begins at the best bet if that has more bytes free than are
      needed, and then starts over at the root; else it begins there. */
  ghost function SearchOrder(v: View, bet: Addr, need: nat): seq<nat> {
    if bet in Bases(v) && FreeBytes(v[IndexOf(v, bet)]) > need
    then OrderFrom(|v|, IndexOf(v, bet), true)
    else OrderFrom(|v|, 0, false)
  }

  /** Block i is the t-th of the order; again says that the search is in its round from the root. */
  ghost predicate IsAt(n: nat, s: nat, bet: bool, again: bool, i: nat, t: nat) {
    && s <= n && i < n
    && (if bet then (if again then t == n - s + i else i == s + t) else again && s == 0 && i == t)
  }

  lemma OrderAt(n: nat, s: nat, bet: bool, again: bool, i: nat, t: nat)
    requires IsAt(n, s, bet, again, i, t)
    ensures t < |OrderFrom(n, s, bet)| && OrderFrom(n, s, bet)[t] == i
    ensures again && i + 1 == n <==> t + 1 == |OrderFrom(n, s, bet)|
  {
    if !again {
      assert OrderFrom(n, s, bet)[t] == From(s, n)[t];
    }
  }

  ghost predicate Indices(order: seq<nat>, n: nat) {
    forall r :: 0 <= r < |order| ==> order[r] < n
  }

  /** Every block has its turn. */
  lemma OrderCovers(n: nat, s: nat, bet: bool)
    requires s <= n
    ensures var order := OrderFrom(n, s, bet);
            Indices(order, n) && forall k :: 0 <= k < n ==> k in order
  {
    var order := OrderFrom(n, s, bet);
    forall k | 0 <= k < n
      ensures k in order
    {
      assert order[|order| - n + k] == k;
    }
  }

  lemma AllVisited(v: View, order: seq<nat>, need: nat)
    requires Indices(order, |v|) && forall k :: 0 <= k < |v| ==> k in order
    requires forall r :: 0 <= r < |order| ==> NoRoom(v[order[r]], need)
    ensures forall k :: 0 <= k < |v| ==> NoRoom(v[k], need)
  {
    hide NoRoom;
    forall k | 0 <= k < |v|
      ensures NoRoom(v[k], need)
    {
      assert k in order;
      var r :| 0 <= r < |order| && order[r] == k;
    }
  }

  // The gap -------------------------------------------------------------------

  ghost predicate IsFirstGap(b: Block, j: nat, need: nat) {
    && j <= |b.chunks| && GapEnd(b, j) >= GapStart(b, j) + need
    && forall l :: 0 <= l < j ==> GapEnd(b, l) < GapStart(b, l) + need
  }

  /** Gap j of block b is the one to take for a body of this size: b is the first block in
      the order, the t-th, that has a large enough gap, and j the first such gap in it; or no
      block has one and b is new. */
  ghost predicate IsChosen(v: View, order: seq<nat>, need: nat, size: nat, grant: Addr, t: nat, j: nat, b: Block) {
    && Indices(order, |v|) && t <= |order|
    && (forall r :: 0 <= r < t ==> NoRoom(v[order[r]], need))
    && (t < |order| ==> b == v[order[t]] && IsFirstGap(b, j, need))
    && (t == |order| ==> b == Block(grant, PagesFor(size), []) && grant != 0 && j == 0)
  }

  lemma HasRoom(b: Block, j: nat, need: nat)
    requires IsFirstGap(b, j, need)
    ensures !NoRoom(b, need)
  {
    assert !(GapEnd(b, j) < GapStart(b, j) + need);
  }

  /** Blocks without room are passed over. */
  lemma ChosenNotBefore(v: View, order: seq<nat>, need: nat, size: nat, grant: Addr,
                        t: nat, j: nat, b: Block, n: nat)
    requires IsChosen(v, order, need, size, grant, t, j, b)
    requires n <= |order| && forall r :: 0 <= r < n ==> NoRoom(v[order[r]], need)
    ensures n <= t && (n == |order| ==> grant != 0)
  {
    hide NoRoom, PagesFor, IsFirstGap;
    if t < |order| {
      HasRoom(b, j, need);
      assert !NoRoom(v[order[t]], need);
    }
  }

  lemma ChosenUnique(v: View, order: seq<nat>, need: nat, size: nat, grant: Addr,
                     t: nat, j: nat, b: Block, t': nat, j': nat, b': Block)
    requires IsChosen(v, order, need, size, grant, t, j, b) && IsChosen(v, order, need, size, grant, t', j', b')
    ensures t == t' && b == b' && j == j'
  {
    ChosenNotBefore(v, order, need, size, grant, t, j, b, t');
    ChosenNotBefore(v, order, need, size, grant, t', j', b', t);
    hide NoRoom, PagesFor;
  }

  // The best bet --------------------------------------------------------------

  datatype Bet = Bet(addr: Addr, free: int)

  function Better(bet: Bet, b: Block): Bet {
    if bet.free < FreeBytes(b) then Bet(b.base, FreeBytes(b)) else bet
  }

  /** The best bet after the blocks with these indices were seen. */
  function BestOf(v: View, ks: seq<nat>, bet: Bet): Bet
    requires forall r :: 0 <= r < |ks| ==> ks[r] < |v|
  {
    if ks == [] then bet else Better(BestOf(v, ks[..|ks| - 1], bet), v[ks[|ks| - 1]])
  }

  ghost predicate IsBest(v: View, ks: seq<nat>, bet: Bet, best: Bet, r: nat)
    requires Indices(ks, |v|)
  {
    && r < |ks| && best == Bet(v[ks[r]].base, FreeBytes(v[ks[r]])) && bet.free < best.free
    && (forall q :: 0 <= q < |ks| ==> FreeBytes(v[ks[q]]) <= best.free)
    && (forall q :: 0 <= q < r ==> FreeBytes(v[ks[q]]) < best.free)
  }

  /** It is the old one if none has more bytes free than that had, and else the first of those
      with the most. */
  lemma {:induction false} BestOfMeaning(v: View, ks: seq<nat>, bet: Bet)
    requires Indices(ks, |v|)
    ensures (forall q :: 0 <= q < |ks| ==> FreeBytes(v[ks[q]]) <= bet.free) ==> BestOf(v, ks, bet) == bet
    ensures (exists q :: 0 <= q < |ks| && FreeBytes(v[ks[q]]) > bet.free) ==>
              exists r :: IsBest(v, ks, bet, BestOf(v, ks, bet), r)
  {
    if ks != [] {
      var init, k := ks[..|ks| - 1], ks[|ks| - 1];
      BestOfMeaning(v, init, bet);
      assert ks == init + [k];
      assert BestOf(v, ks, bet) == Better(BestOf(v, init, bet), v[k]);
      BestStep(v, init, k, bet, BestOf(v, init, bet));
    }
  }

  lemma BestStep(v: View, init: seq<nat>, k: nat, bet: Bet, was: Bet)
    requires Indices(init, |v|) && k < |v|
    requires (forall q :: 0 <= q < |init| ==> FreeBytes(v[init[q]]) <= bet.free) ==> was == bet
    requires (exists q :: 0 <= q < |init| && FreeBytes(v[init[q]]) > bet.free) ==>
               exists r :: IsBest(v, init, bet, was, r)
    ensures var ks, best := init + [k], Better(was, v[k]);
            && ((forall q :: 0 <= q < |ks| ==> FreeBytes(v[ks[q]]) <= bet.free) ==> best == bet)
            && ((exists q :: 0 <= q < |ks| && FreeBytes(v[ks[q]]) > bet.free) ==>
                  exists r :: IsBest(v, ks, bet, best, r))
  {
    hide FreeBytes;
    var ks, best := init + [k], Better(was, v[k]);
    assert forall q :: 0 <= q < |init| ==> ks[q] == init[q];
    if forall q :: 0 <= q < |init| ==> FreeBytes(v[init[q]]) <= bet.free {
      assert FreeBytes(v[k]) > bet.free ==> IsBest(v, ks, bet, best, |init|);
    } else {
      var r :| IsBest(v, init, bet, was, r);
      assert IsBest(v, ks, bet, best, if was.free < FreeBytes(v[k]) then |init| else r);
    }
  }

  lemma BestOfNone(v: View, order: seq<nat>, bet: Bet)
    ensures BestOf(v, order[..0], bet) == bet
  {
  }

  lemma BestOfNext(v: View, order: seq<nat>, t: nat, bet: Bet)
    requires Indices(order, |v|) && t < |order|
    ensures BestOf(v, order[..t + 1], bet) == Better(BestOf(v, order[..t], bet), v[order[t]])
  {
    assert order[..t + 1][..t] == order[..t];
  }

  /** The best bet a search begins with. */
  ghost function BetOf(v: View, bet: Addr): Bet {
    if bet in Bases(v) then Bet(bet, FreeBytes(v[IndexOf(v, bet)])) else Bet(0, 0)
  }

  /** A search that begins with a best bet. */
  lemma SearchFromBet(v: View, bet: Addr, need: nat, i: nat)
    requires HeapOk(v) && i < |v| && v[i].base == bet
    ensures BetOf(v, bet) == Bet(bet, FreeBytes(v[i]))
    ensures SearchOrder(v, bet, need) ==
              if FreeBytes(v[i]) > need then OrderFrom(|v|, i, true) else OrderFrom(|v|, 0, false)
  {
    hide HeapOk, OrderFrom, FreeBytes;
    IndexOfIs(v, i);
  }

  /** A search that begins without one. */
  lemma SearchFromRoot(v: View, need: nat)
    requires HeapOk(v)
    ensures 0 !in Bases(v) && BetOf(v, 0) == Bet(0, 0) && SearchOrder(v, 0, need) == OrderFrom(|v|, 0, false)
  {
    hide OrderFrom;
    forall i | 0 <= i < |v|
      ensures Bases(v)[i] != 0
    {
      assert BlockOk(v[i]);
    }
  }

  /** The best bet after the search: every block it came to was looked at, and a new one too
      if the last block of the list had enough bytes free, only not in one gap. */
  ghost function BetAfter(v: View, order: seq<nat>, need: nat, size: nat, grant: Addr, t: nat, bet: Bet): Bet
    requires Indices(order, |v|) && order != []
  {
    if t < |order| then BestOf(v, order[..t + 1], bet)
    else if FreeBytes(v[order[|order| - 1]]) >= need
    then Better(BestOf(v, order, bet), Block(grant, PagesFor(size), []))
    else BestOf(v, order, bet)
  }

  /** A 32-bit word read as a signed number. */
  function AsSigned(x: int): int {
    (x + 0x8000_0000) % 0x1_0000_0000 - 0x8000_0000
  }

  /** The best bet after block i of v lost a chunk and is still held. Unlike the search, free
      compares signed numbers. */
  ghost function BetAfterFree(v: View, bet: Addr, i: nat): Addr
    requires i < |v|
  {
    if bet in Bases(v) && AsSigned(FreeBytes(v[i])) > AsSigned(FreeBytes(v[IndexOf(v, bet)])) then v[i].base else bet
  }

  lemma BetIndex(v: View, bet: Addr, k: nat, i: nat)
    requires HeapOk(v) && k < |v| && i < |v| && v[k].base == bet
    ensures BetAfterFree(v, bet, i) ==
              if AsSigned(FreeBytes(v[i])) > AsSigned(FreeBytes(v[k])) then v[i].base else bet
  {
    hide HeapOk, FreeBytes, AsSigned;
    IndexOfIs(v, k);
  }

  lemma NoBetIndex(v: View, i: nat)
    requires HeapOk(v) && i < |v|
    ensures BetAfterFree(v, 0, i) == 0
  {
    hide AsSigned;
    SearchFromRoot(v, 0);
  }

  // The whole answer ----------------------------------------------------------

  /** The heap to search: an empty one first gets a block, if the system has the pages. */
  function Begin(v: View, rootGrant: Addr, size: nat): View {
    if v == [] && rootGrant != 0 then [Block(rootGrant, PagesFor(size), [])] else v
  }

  /** Where the chosen block stands once it is in the list. */
  function Spot(order: seq<nat>, n: nat, t: nat): nat {
    if t < |order| then order[t] else n
  }

  /** The list once it holds the chosen block. */
  function Extended(v: View, order: seq<nat>, size: nat, grant: Addr, t: nat): View {
    if t < |order| then v else v + [Block(grant, PagesFor(size), [])]
  }

  /** What a search in this order ends with: null exactly if there is neither room nor memory,
      else the block and the gap to use; and the best bet it leaves. */
  ghost predicate IsResult(v: View, order: seq<nat>, bet: Bet, need: nat, size: nat, grant: Addr,
                           p: Addr, b: Block, t: nat, j: nat, bet': Addr)
  {
    && Indices(order, |v|) && order != []
    && (p == 0 ==>
          && grant == 0 && (forall r :: 0 <= r < |order| ==> NoRoom(v[order[r]], need))
          && bet' == BestOf(v, order, bet).addr)
    && (p != 0 ==>
          IsChosen(v, order, need, size, grant, t, j, b) && bet' == BetAfter(v, order, need, size, grant, t, bet).addr)
  }

  /** w holds chunk c in gap j of the chosen block. */
  ghost predicate IsFilled(v: View, order: seq<nat>, size: nat, grant: Addr, c: Chunk, t: nat, j: nat, w: View) {
    var u, i := Extended(v, order, size, grant, t), Spot(order, |v|, t);
    i < |u| && j <= |u[i].chunks| && w == u[i := Insert(u[i], j, c)]
  }

  /** What a search of the blocks v for a body of this size answers: the chunk starts the gap
      and the pointer is the first aligned address that leaves room for the words in front. */
  ghost predicate IsFound(v: View, bet: Addr, grant: Addr, size: nat, alignment: nat,
                          p: Addr, c: Chunk, b: Block, t: nat, j: nat, bet': Addr)
  {
    var need := (size + 24) % 0x1_0000_0000;
    && IsResult(v, SearchOrder(v, bet, need), BetOf(v, bet), need, size, grant, p, b, t, j, bet')
    && (p != 0 ==>
          && j <= |b.chunks| && c.addr == GapStart(b, j) && c.size == size && c.pad < alignment
          && p == c.addr + 40 + c.pad && p % alignment == 0)
  }

  /** What malloc answers: null if there is no heap and no memory to begin one, and else
      what the search finds. */
  ghost predicate IsAnswer(v: View, bet: Addr, rootGrant: Addr, grant: Addr, size: nat, alignment: nat,
                           p: Addr, c: Chunk, b: Block, t: nat, j: nat, bet': Addr)
  {
    if Begin(v, rootGrant, size) == [] then p == 0 && bet' == bet
    else IsFound(Begin(v, rootGrant, size), bet, grant, size, alignment, p, c, b, t, j, bet')
  }

  ghost predicate IsFilledFrom(v: View, bet: Addr, rootGrant: Addr, grant: Addr, size: nat,
                               c: Chunk, t: nat, j: nat, w: View)
  {
    var v' := Begin(v, rootGrant, size);
    IsFilled(v', SearchOrder(v', bet, (size + 24) % 0x1_0000_0000), size, grant, c, t, j, w)
  }

  /** The list gets longer only if there is room nowhere. */
  lemma RoomNowhere(v: View, w: View, order: seq<nat>, need: nat, size: nat, grant: Addr, bet: Bet,
                    p: Addr, c: Chunk, b: Block, t: nat, j: nat, bet': Addr)
    requires IsResult(v, order, bet, need, size, grant, p, b, t, j, bet') && forall k :: 0 <= k < |v| ==> k in order
    requires p != 0 ==> IsFilled(v, order, size, grant, c, t, j, w)
    ensures p == 0 || |w| > |v| ==> forall k :: 0 <= k < |v| ==> NoRoom(v[k], need)
  {
    hide NoRoom, BestOf, PagesFor, BetAfter, IsFirstGap;
    if p == 0 || t == |order| {
      AllVisited(v, order, need);
    }
  }

  /** There is only one such answer. */
  lemma AnswerUnique(v: View, bet: Addr, rootGrant: Addr, grant: Addr, size: nat, alignment: nat,
                     p: Addr, c: Chunk, b: Block, t: nat, j: nat, bet': Addr,
                     q: Addr, d: Chunk, e: Block, u: nat, l: nat, bet'': Addr)
    requires IsAnswer(v, bet, rootGrant, grant, size, alignment, p, c, b, t, j, bet')
    requires IsAnswer(v, bet, rootGrant, grant, size, alignment, q, d, e, u, l, bet'')
    ensures p == q && bet' == bet'' && (p != 0 ==> b == e && t == u && j == l)
  {
    hide SearchOrder, BetOf, BestOf, NoRoom, PagesFor, IsChosen, BetAfter, GapStart;
    var v', need := Begin(v, rootGrant, size), (size + 24) % 0x1_0000_0000;
    if v' != [] {
      var order := SearchOrder(v', bet, need);
      if p != 0 && q != 0 {
        ChosenUnique(v', order, need, size, grant, t, j, b, u, l, e);
        PaddingUnique(c.addr + 40, c.pad, d.pad, alignment);
      } else if p != 0 {
        ChosenNotBefore(v', order, need, size, grant, t, j, b, |order|);
      } else if q != 0 {
        ChosenNotBefore(v', order, need, size, grant, u, l, e, |order|);
      }
    }
  }

  lemma PaddingUnique(a: nat, x: nat, y: nat, m: nat)
    requires m > 0 && x < m && y < m && (a + x) % m == 0 && (a + y) % m == 0
    ensures x == y
  {
    var i, k := (a + x) / m, (a + y) / m;
    assert a + x == m * i && a + y == m * k;
    if x <= y {
      RemainderUnique(a + y, i, y - x, m);
    } else {
      RemainderUnique(a + x, k, x - y, m);
    }
  }
}
