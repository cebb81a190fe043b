// Doubly linked lists in memory: which addresses point where.

module Chains {

  /** The prev and next fields of the nodes of a list, by address; 0 is null. */
  datatype Chain = Chain(prev: map<nat, nat>, next: map<nat, nat>)

  ghost function At(s: seq<nat>, i: int): nat {
    if 0 <= i < |s| then s[i] else 0
  }

  ghost predicate Node(s: seq<nat>, i: int, c: Chain)
    requires 0 <= i < |s|
  {
    && s[i] in c.prev && c.prev[s[i]] == At(s, i - 1)
    && s[i] in c.next && c.next[s[i]] == At(s, i + 1)
  }

  /** The nodes at the addresses of s are linked in that order. */
  ghost predicate Links(s: seq<nat>, c: Chain) {
    forall i :: 0 <= i < |s| ==> Node(s, i, c)
  }

  ghost predicate Distinct(s: seq<nat>) {
    forall i, j :: 0 <= i < j < |s| ==> s[i] != s[j]
  }

  function InsertAt(s: seq<nat>, j: nat, a: nat): seq<nat>
    requires j <= |s|
  {
    s[..j] + [a] + s[j..]
  }

  function RemoveAt(s: seq<nat>, j: nat): seq<nat>
    requires j < |s|
  {
    s[..j] + s[j + 1..]
  }

  /** The writes that link node a in before position j. */
  ghost function LinkIn(s: seq<nat>, j: nat, a: nat, c: Chain): Chain
    requires j <= |s|
  {
    var prev := c.prev[a := At(s, j - 1)];
    var next := c.next[a := At(s, j)];
    Chain(if j < |s| then prev[s[j] := a] else prev, if j > 0 then next[s[j - 1] := a] else next)
  }

  /** The writes that link node j out. */
  ghost function LinkOut(s: seq<nat>, j: nat, c: Chain): Chain
    requires j < |s|
  {
    Chain(if j + 1 < |s| then c.prev[s[j + 1] := At(s, j - 1)] else c.prev,
          if j > 0 then c.next[s[j - 1] := At(s, j + 1)] else c.next)
  }

  lemma LinkInOk(s: seq<nat>, j: nat, a: nat, c: Chain)
    requires Links(s, c) && Distinct(s) && a !in s && j <= |s|
    ensures Links(InsertAt(s, j, a), LinkIn(s, j, a, c))
  {
    var t, d := InsertAt(s, j, a), LinkIn(s, j, a, c);
    forall i | 0 <= i < |t|
      ensures Node(t, i, d)
    {
      if i < j {
        assert t[i] == s[i] && Node(s, i, c);
      } else if i > j {
        assert t[i] == s[i - 1] && Node(s, i - 1, c);
      }
    }
  }

  lemma LinkOutOk(s: seq<nat>, j: nat, c: Chain)
    requires Links(s, c) && Distinct(s) && j < |s|
    ensures Links(RemoveAt(s, j), LinkOut(s, j, c))
  {
    var t, d := RemoveAt(s, j), LinkOut(s, j, c);
    forall i | 0 <= i < |t|
      ensures Node(t, i, d)
    {
      var k := if i < j then i else i + 1;
      assert t[i] == s[k] && Node(s, k, c);
    }
  }

  /** The two chains agree on the nodes of s. */
  ghost predicate AgreeOn(s: seq<nat>, c: Chain, d: Chain) {
    && (forall a :: a in s && a in c.prev ==> a in d.prev && d.prev[a] == c.prev[a])
    && (forall a :: a in s && a in c.next ==> a in d.next && d.next[a] == c.next[a])
  }

  lemma LinksFrame(s: seq<nat>, c: Chain, d: Chain)
    requires Links(s, c) && AgreeOn(s, c, d)
    ensures Links(s, d)
  {
    forall i | 0 <= i < |s|
      ensures Node(s, i, d)
    {
      assert Node(s, i, c);
    }
  }

  ghost predicate Disjoint(s: seq<nat>, t: seq<nat>) {
    forall a :: a in s ==> a !in t
  }

  /** Linking in or out changes only nodes of that list. */
  lemma LinkInFrame(s: seq<nat>, j: nat, a: nat, c: Chain, t: seq<nat>)
    requires j <= |s| && Disjoint(t, s) && a !in t
    ensures AgreeOn(t, c, LinkIn(s, j, a, c))
  {
  }

  lemma LinkOutFrame(s: seq<nat>, j: nat, c: Chain, t: seq<nat>)
    requires j < |s| && Disjoint(t, s)
    ensures AgreeOn(t, c, LinkOut(s, j, c))
  {
  }
}
