// The scheduler's choice of the next process: a round-robin search that prefers
// anything to the idle task, and its fairness over whole runs.

module Scheduler {

  /** A slot of the process table: empty, or a process that is ready or not. */
  datatype Slot = Empty | Process(ready: bool)

  type Table = seq<Slot>

  predicate IsReady(t: Table, pid: nat) {
    pid < |t| && t[pid].Process? && t[pid].ready
  }

  /** How many slots lie strictly between a and b, going up and around. */
  function Between(n: nat, a: nat, b: nat): (d: nat)
    requires a < n && b < n
    ensures d < n
  {
    if a < b then b - a - 1 else b - a - 1 + n
  }

  /** The slot after p, around the end of the table. */
  function Following(n: nat, p: nat): (r: nat)
    requires p < n
    ensures r == if p + 1 == n then 0 else p + 1
  {
    (p + 1) % n
  }

  /** The first ready process after a given one, possibly that process itself. */
  ghost predicate IsFirstReady(t: Table, from: nat, next: nat) {
    && from < |t| && IsReady(t, next)
    && forall p :: IsReady(t, p) ==> Between(|t|, from, next) <= Between(|t|, from, p)
  }

  method FirstReadyAfter(t: Table, from: nat) returns (next: nat)
    requires from < |t| && exists p :: IsReady(t, p)
    ensures IsFirstReady(t, from, next)
  {
    ghost var goal :| IsReady(t, goal);
    hide Following;
    next := Following(|t|, from);
    while !IsReady(t, next)
      invariant next < |t| && Between(|t|, from, next) <= Between(|t|, from, goal)
      invariant forall p :: IsReady(t, p) ==> Between(|t|, from, next) <= Between(|t|, from, p)
      decreases |t| - Between(|t|, from, next)
    {
      next := Following(|t|, next);
    }
  }

  /** Where the search stands after some steps. */
  function Visited(n: nat, from: nat, steps: nat): (p: nat)
    requires from < n
    ensures p < n
  {
    if steps == 0 then from else Following(n, Visited(n, from, steps - 1))
  }

  /** The search ends if and only if some process is ready. */
  lemma SearchEndsIff(t: Table, from: nat)
    requires from < |t|
    ensures (exists steps: nat :: steps > 0 && IsReady(t, Visited(|t|, from, steps))) <==> exists p :: IsReady(t, p)
  {
    if p :| IsReady(t, p) {
      var steps := Between(|t|, from, p) + 1;
      VisitedAt(|t|, from, steps);
      assert IsReady(t, Visited(|t|, from, steps));
    }
  }

  lemma {:induction false} VisitedAt(n: nat, from: nat, steps: nat)
    requires from < n && steps <= n
    ensures Visited(n, from, steps) == if from + steps < n then from + steps else from + steps - n
  {
    hide Following;
    if steps > 0 {
      VisitedAt(n, from, steps - 1);
    }
  }

  /** The process to run next: the first ready one other than the idle task 0, or
      the idle task when nothing else is ready. */
  ghost predicate IsChoice(t: Table, current: nat, next: nat) {
    && current < |t| && IsReady(t, next)
    && (next == 0 ==> forall p :: IsReady(t, p) ==> p == 0)
    && (next != 0 ==> forall p :: p != 0 && IsReady(t, p) ==> Between(|t|, current, next) <= Between(|t|, current, p))
  }

  method FindNextPid(t: Table, current: nat) returns (next: nat)
    requires current < |t| && exists p :: IsReady(t, p)
    ensures IsChoice(t, current, next)
    ensures next == 0 <==> forall p :: IsReady(t, p) ==> p == 0
  {
    next := FirstReadyAfter(t, current);
    if next == 0 {
      next := FirstReadyAfter(t, 0);
      PastIdle(t, current, next);
    }
  }

  /** Searching again from the idle task skips nobody. */
  lemma PastIdle(t: Table, current: nat, next: nat)
    requires IsFirstReady(t, current, 0) && IsFirstReady(t, 0, next)
    ensures IsChoice(t, current, next)
  {
    var n := |t|;
    forall p | IsReady(t, p)
      ensures next == 0 ==> p == 0
      ensures next != 0 && p != 0 ==> Between(n, current, next) <= Between(n, current, p)
    {
      assert Between(n, current, 0) <= Between(n, current, p);
      assert Between(n, 0, next) <= Between(n, 0, p);
      assert Between(n, current, 0) <= Between(n, current, next);
    }
  }

  /** The choice is determined by the table and the current process. */
  lemma ChoiceUnique(t: Table, current: nat, x: nat, y: nat)
    requires IsChoice(t, current, x) && IsChoice(t, current, y)
    ensures x == y
  {
    if x != 0 && y != 0 {
      assert Between(|t|, current, x) == Between(|t|, current, y);
    }
  }

  // Whole runs ----------------------------------------------------------------

  /** A run of the scheduler: the tables it found at each switch, and who ran. Creating
      a process may lengthen the table; nothing shortens it. */
  ghost predicate IsRun(tables: seq<Table>, picks: seq<nat>) {
    && |picks| == |tables| + 1
    && (forall k, l :: 0 <= k < l < |tables| ==> |tables[k]| <= |tables[l]|)
    && (forall k :: 0 <= k < |tables| ==> IsChoice(tables[k], picks[k], picks[k + 1]))
  }

  /** A process that is waiting its turn comes one or more places nearer. */
  lemma ComesNearer(t: Table, current: nat, next: nat, pid: nat)
    requires IsChoice(t, current, next) && pid != 0 && IsReady(t, pid) && next != pid
    ensures Between(|t|, next, pid) < Between(|t|, current, pid)
  {
    assert next != 0;
    assert Between(|t|, current, next) <= Between(|t|, current, pid);
  }

  /** A longer table puts only its new slots in between. */
  lemma LongerTable(n: nat, m: nat, a: nat, b: nat)
    requires a < n <= m && b < n
    ensures Between(m, a, b) <= Between(n, a, b) + (m - n)
  {
  }

  /** No starvation: a process other than the idle task that stays ready runs after at
      most as many switches as there are slots between, old ones and those added. */
  lemma {:induction false} Fairness(tables: seq<Table>, picks: seq<nat>, pid: nat, top: nat)
    requires IsRun(tables, picks) && tables != [] && picks[0] < |tables[0]| && 0 < pid < |tables[0]|
    requires forall k :: 0 <= k < |tables| ==> IsReady(tables[k], pid) && |tables[k]| <= top
    requires |tables| > Between(|tables[0]|, picks[0], pid) + (top - |tables[0]|)
    ensures exists k :: 0 < k <= Between(|tables[0]|, picks[0], pid) + (top - |tables[0]|) + 1 && picks[k] == pid
    decreases |tables|
  {
    var n := |tables[0]|;
    assert IsChoice(tables[0], picks[0], picks[1]);
    if picks[1] != pid {
      ComesNearer(tables[0], picks[0], picks[1], pid);
      RunTail(tables, picks);
      LongerTable(n, |tables[1]|, picks[1], pid);
      Fairness(tables[1..], picks[1..], pid, top);
      var m := |tables[1]|;
      var k :| 0 < k <= Between(m, picks[1], pid) + (top - m) + 1 && picks[1..][k] == pid;
      assert picks[k + 1] == pid;
    }
  }

  lemma RunTail(tables: seq<Table>, picks: seq<nat>)
    requires IsRun(tables, picks) && |tables| > 0
    ensures IsRun(tables[1..], picks[1..])
  {
    forall k | 0 <= k < |tables| - 1
      ensures IsChoice(tables[1..][k], picks[1..][k], picks[1..][k + 1])
    {
      assert IsChoice(tables[k + 1], picks[k + 1], picks[k + 2]);
    }
  }

  // Creation at every switch --------------------------------------------------

  function AllReady(n: nat): (t: Table)
    ensures |t| == n && forall p :: 0 <= p < n ==> IsReady(t, p)
  {
    seq(n, i => Process(true))
  }

  /** Tables found by count switches, one process having been added before each. */
  function GrowingTables(n: nat, count: nat): seq<Table> {
    seq(count, k requires 0 <= k => AllReady(n + k + 1))
  }

  function NewestFirst(n: nat, count: nat): seq<nat>
    requires n > 0
  {
    seq(count + 1, k requires 0 <= k => n - 1 + k)
  }

  /** Without a bound on the table there is no bound on the wait: if a process is added
      before each switch, the newest one is always next, and a ready process is passed
      over for as long as that goes on. */
  lemma Overtaken(n: nat, pid: nat, count: nat)
    requires 0 < pid < n - 1
    ensures IsRun(GrowingTables(n, count), NewestFirst(n, count))
    ensures forall k :: 0 <= k < count ==> IsReady(GrowingTables(n, count)[k], pid)
    ensures pid !in NewestFirst(n, count)
  {
    var tables, picks := GrowingTables(n, count), NewestFirst(n, count);
    forall k | 0 <= k < count
      ensures IsChoice(tables[k], picks[k], picks[k + 1]) && IsReady(tables[k], pid)
    {
      var t := AllReady(n + k + 1);
      assert tables[k] == t && picks[k] == n - 1 + k && picks[k + 1] == n + k;
      assert IsReady(t, n + k) && IsReady(t, pid);
      assert Between(|t|, n - 1 + k, n + k) == 0;
    }
    forall k, l | 0 <= k < l < count
      ensures |tables[k]| <= |tables[l]|
    {
      assert tables[k] == AllReady(n + k + 1) && tables[l] == AllReady(n + l + 1);
    }
  }

  /** In a table of three with process 2 running, process 1 is two switches away; two
      creations later it has still not run. */
  lemma OvertakenExample()
    ensures Between(3, 2, 1) + 1 == 2
    ensures NewestFirst(3, 2) == [2, 3, 4] && IsRun(GrowingTables(3, 2), [2, 3, 4])
    ensures forall k :: 0 <= k < 2 ==> IsReady(GrowingTables(3, 2)[k], 1)
  {
    Overtaken(3, 1, 2);
    assert NewestFirst(3, 2) == [2, 3, 4];
  }
}
