// User-space standard output: characters collected in a 1024-byte buffer that is
// written out at each newline and whenever it is full.

module Stdout {

  const CAPACITY: nat := 1024

  // What ought to be written --------------------------------------------------

  /** A piece that must be written out as soon as it is complete: it ends at the
      first newline, or at the capacity. */
  ghost predicate IsChunk(s: string) {
    && 1 <= |s| <= CAPACITY
    && (forall i :: 0 <= i < |s| - 1 ==> s[i] != '\n')
    && (s[|s| - 1] == '\n' || |s| == CAPACITY)
  }

  /** A piece that waits for more. */
  ghost predicate IsOpen(s: string) {
    |s| < CAPACITY && '\n' !in s
  }

  /** The length of the first complete piece of s, or 0 if there is none. */
  function FirstCut(s: string, from: nat): (k: nat)
    requires from <= |s|
    ensures k == 0 || from < k <= |s|
    decreases |s| - from
  {
    if from == |s| then 0
    else if s[from] == '\n' || from + 1 == CAPACITY then from + 1
    else FirstCut(s, from + 1)
  }

  function Chunks(s: string): seq<string>
    decreases |s|
  {
    var k := FirstCut(s, 0);
    if k == 0 then [] else [s[..k]] + Chunks(s[k..])
  }

  function Rest(s: string): string
    decreases |s|
  {
    var k := FirstCut(s, 0);
    if k == 0 then s else Rest(s[k..])
  }

  function Concat(chunks: seq<string>): string {
    if chunks == [] then "" else chunks[0] + Concat(chunks[1..])
  }

  lemma {:induction false} FirstCutMeaning(s: string, from: nat)
    requires from <= |s| && from < CAPACITY && '\n' !in s[..from]
    ensures var k := FirstCut(s, from);
            if k == 0 then IsOpen(s) else IsChunk(s[..k])
    decreases |s| - from
  {
    if from == |s| {
      assert s[..from] == s;
    } else if s[from] != '\n' && from + 1 < CAPACITY {
      assert s[..from + 1] == s[..from] + [s[from]];
      FirstCutMeaning(s, from + 1);
    }
  }

  /** The pieces are complete, the rest is open, and together they are s. */
  lemma {:induction false} ChunksMeaning(s: string)
    ensures Concat(Chunks(s)) + Rest(s) == s
    ensures forall i :: 0 <= i < |Chunks(s)| ==> IsChunk(Chunks(s)[i])
    ensures IsOpen(Rest(s))
    decreases |s|
  {
    hide FirstCut, IsChunk, IsOpen, Concat, Chunks, Rest;
    var k := FirstCut(s, 0);
    FirstCutMeaning(s, 0);
    Unfold(s);
    if k == 0 {
      ConcatNone();
    } else {
      var c, more := s[..k], s[k..];
      ChunksMeaning(more);
      ConcatMore(c, Chunks(more), Rest(more));
      assert s == c + more;
    }
  }

  lemma Unfold(s: string)
    ensures var k := FirstCut(s, 0);
            if k == 0 then Chunks(s) == [] && Rest(s) == s
            else Chunks(s) == [s[..k]] + Chunks(s[k..]) && Rest(s) == Rest(s[k..])
  {
  }

  lemma ConcatNone()
    ensures Concat([]) == ""
  {
  }

  lemma ConcatMore(c: string, chunks: seq<string>, rest: string)
    ensures Concat([c] + chunks) + rest == c + (Concat(chunks) + rest)
  {
    assert ([c] + chunks)[1..] == chunks;
  }

  lemma {:induction false} CutOfChunk(c: string, s: string, from: nat)
    requires IsChunk(c) && from < |c|
    ensures FirstCut(c + s, from) == |c|
    decreases |c| - from
  {
    assert (c + s)[from] == c[from];
    if from + 1 < |c| {
      CutOfChunk(c, s, from + 1);
    }
  }

  lemma {:induction false} CutOfOpen(s: string, from: nat)
    requires IsOpen(s) && from <= |s|
    ensures FirstCut(s, from) == 0
    decreases |s| - from
  {
    if from < |s| {
      CutOfOpen(s, from + 1);
    }
  }

  /** There is only one way to cut a text into complete pieces and an open rest. */
  lemma {:induction false} CutUnique(chunks: seq<string>, rest: string)
    requires (forall i :: 0 <= i < |chunks| ==> IsChunk(chunks[i])) && IsOpen(rest)
    ensures Chunks(Concat(chunks) + rest) == chunks && Rest(Concat(chunks) + rest) == rest
    decreases |chunks|
  {
    hide FirstCut, Chunks, Rest, IsOpen, Concat;
    if chunks == [] {
      ConcatNone();
      assert Concat(chunks) + rest == rest;
      CutOfOpen(rest, 0);
      Unfold(rest);
    } else {
      var c, more := chunks[0], Concat(chunks[1..]) + rest;
      CutUnique(chunks[1..], rest);
      CutOfChunk(c, more, 0);
      ConcatMore(c, chunks[1..], rest);
      assert chunks == [c] + chunks[1..];
      assert (c + more)[..|c|] == c && (c + more)[|c|..] == more;
      Unfold(c + more);
    }
  }

  // What is lost at exit ------------------------------------------------------

  /** The number of characters after the last newline. */
  function OpenLine(s: string): nat {
    if s == "" || s[|s| - 1] == '\n' then 0 else 1 + OpenLine(s[..|s| - 1])
  }

  lemma CutAppend(s: string, c: char)
    ensures Rest(s + [c]) == if c == '\n' || |Rest(s)| + 1 == CAPACITY then "" else Rest(s) + [c]
  {
    hide Chunks, Rest, Concat, IsChunk;
    var chunks, open := Chunks(s), Rest(s);
    ChunksMeaning(s);
    if c == '\n' || |open| + 1 == CAPACITY {
      CompletePiece(open, c);
      ConcatAppend(chunks, open + [c]);
      assert s + [c] == Concat(chunks + [open + [c]]) + "";
      CutUnique(chunks + [open + [c]], "");
    } else {
      assert s + [c] == Concat(chunks) + (open + [c]);
      CutUnique(chunks, open + [c]);
    }
  }

  lemma Nothing()
    ensures Rest("") == "" && OpenLine("") == 0
  {
  }

  lemma OpenLineAppend(s: string, c: char)
    ensures OpenLine(s + [c]) == if c == '\n' then 0 else 1 + OpenLine(s)
  {
    assert (s + [c])[..|s|] == s;
  }

  lemma {:induction false} RestLength(s: string)
    ensures |Rest(s)| == OpenLine(s) % 1024
  {
    hide Rest, OpenLine;
    if s == "" {
      Nothing();
    } else {
      var before, c := s[..|s| - 1], s[|s| - 1];
      assert s == before + [c];
      RestLength(before);
      OpenLineAppend(before, c);
      CutAppend(before, c);
    }
  }

  /** Nothing is flushed at exit. So all of a text is written exactly if the characters after
      its last newline, if any, fill whole buffers. */
  lemma AllWrittenIff(s: string)
    ensures Concat(Chunks(s)) == s <==> OpenLine(s) % 1024 == 0
  {
    hide Concat, Chunks, Rest, OpenLine;
    ChunksMeaning(s);
    RestLength(s);
    var written, rest := Concat(Chunks(s)), Rest(s);
    assert |s| == |written| + |rest|;
    assert rest == "" ==> written + rest == written;
  }

  /** A lone "a" is lost at exit. */
  lemma LostExample()
    ensures OpenLine("a") == 1 && Concat(Chunks("a")) != "a"
  {
    assert "a"[..0] == "";
    AllWrittenIff("a");
  }

  // The code ------------------------------------------------------------------

  lemma {:induction false} ConcatAppend(chunks: seq<string>, c: string)
    ensures Concat(chunks + [c]) == Concat(chunks) + c
  {
    if chunks == [] {
      assert chunks + [c] == [c];
    } else {
      ConcatAppend(chunks[1..], c);
      assert (chunks + [c])[1..] == chunks[1..] + [c];
    }
  }

  class Writer {
    const printBuffer: array<char>
    var bufCounter: nat
    /** The system calls made so far, and everything sent to the callback. */
    ghost var written: seq<string>
    ghost var sent: string

    /** What is written and what waits are exactly the cut of what was sent. */
    ghost predicate Valid()
      reads this, printBuffer
    {
      && printBuffer.Length == CAPACITY && bufCounter < CAPACITY
      && written == Chunks(sent) && printBuffer[..bufCounter] == Rest(sent)
    }

    constructor ()
      ensures Valid() && fresh(printBuffer) && written == [] && sent == ""
    {
      printBuffer := new char[1024];
      bufCounter := 0;
      written, sent := [], "";
    }

    method FlushBuffer()
      requires bufCounter <= printBuffer.Length
      modifies this`bufCounter, this`written
      ensures written == old(written) + [printBuffer[..old(bufCounter)]] && bufCounter == 0
    {
      written := written + [printBuffer[..bufCounter]];
      bufCounter := 0;
    }

    method WriteCallback(c: char)
      requires Valid()
      modifies this, printBuffer
      ensures Valid() && sent == old(sent) + [c]
    {
      hide Chunks, Rest, Concat, IsChunk;
      ghost var before := printBuffer[..bufCounter];
      ChunksMeaning(sent);
      printBuffer[bufCounter] := c;
      bufCounter := bufCounter + 1;
      assert printBuffer[..bufCounter] == before + [c];
      assert sent + [c] == Concat(written) + (before + [c]);
      if c == '\n' || bufCounter == printBuffer.Length {
        FlushBuffer();
        CompletePiece(before, c);
        ConcatAppend(old(written), before + [c]);
        assert sent + [c] == Concat(written) + "";
        CutUnique(written, "");
      } else {
        CutUnique(written, before + [c]);
      }
      sent := sent + [c];
    }
  }

  lemma CompletePiece(before: string, c: char)
    requires IsOpen(before) && (c == '\n' || |before| + 1 == CAPACITY)
    ensures IsChunk(before + [c])
  {
  }
}
