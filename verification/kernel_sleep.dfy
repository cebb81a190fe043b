// How the kernel drives its sleep queue. The queue's clock is the time of the last
// scheduling decision; a sleeper is queued relative to that clock, not to the time at
// which it asked.

module KernelSleep {
  import opened SleepQueue

  /** Who sleeps, and what is to be said about it: the time at which it asked, the queue's
      clock then, and for how long. The queue never looks inside. */
  datatype Request = Request(pid: nat, at: nat, elapsed: nat, duration: nat) {
    /** When it may expect to run again. */
    function Expected(): nat {
      at + duration
    }
  }

  /** What the kernel does, and at which time. */
  datatype Use = SleepAt(pid: nat, duration: nat, at: nat) | ScheduleAt(at: nat)

  /** The time of the last event. */
  function Clock(uses: seq<Use>): nat {
    if uses == [] then 0 else uses[|uses| - 1].at
  }

  /** The time of the last scheduling decision. */
  function Elapsed(uses: seq<Use>): nat {
    if uses == [] then 0
    else if uses[|uses| - 1].ScheduleAt? then uses[|uses| - 1].at
    else Elapsed(uses[..|uses| - 1])
  }

  /** Time does not run backwards. */
  predicate Timely(uses: seq<Use>) {
    uses == [] || (Timely(uses[..|uses| - 1]) && Clock(uses[..|uses| - 1]) <= uses[|uses| - 1].at)
  }

  lemma {:induction false} ElapsedBefore(uses: seq<Use>)
    requires Timely(uses)
    ensures Elapsed(uses) <= Clock(uses)
  {
    if uses != [] {
      ElapsedBefore(uses[..|uses| - 1]);
    }
  }

  /** What the queue sees of an event. */
  function EventOf(u: Use, elapsed: nat): Event<Request> {
    match u
    case SleepAt(pid, d, t) => Sleep(Request(pid, t, elapsed, d), d)
    case ScheduleAt(t) => Tick(if t >= elapsed then t - elapsed else 0)
  }

  function Events(uses: seq<Use>): seq<Event<Request>> {
    if uses == [] then []
    else Events(uses[..|uses| - 1]) + [EventOf(uses[|uses| - 1], Elapsed(uses[..|uses| - 1]))]
  }

  lemma EventsAppend(uses: seq<Use>, u: Use)
    ensures Events(uses + [u]) == Events(uses) + [EventOf(u, Elapsed(uses))]
    ensures Elapsed(uses + [u]) == if u.ScheduleAt? then u.at else Elapsed(uses)
    ensures Timely(uses + [u]) <==> Timely(uses) && Clock(uses) <= u.at
    ensures Clock(uses + [u]) == u.at
  {
    assert (uses + [u])[..|uses|] == uses;
  }

  function State(uses: seq<Use>): Clockwork<Request> {
    Run(Events(uses))
  }

  lemma StateAppend(uses: seq<Use>, u: Use)
    ensures State(uses + [u]) == Step(State(uses), EventOf(u, Elapsed(uses)))
  {
    hide Events, Run, Step;
    EventsAppend(uses, u);
    RunAppend(Events(uses), EventOf(u, Elapsed(uses)));
  }

  lemma StateSound(uses: seq<Use>)
    ensures Sound(State(uses))
  {
    RunSound(Events(uses));
  }

  lemma Beginning()
    ensures State([]) == Clockwork(0, [], [], []) && Elapsed([]) == 0
  {
  }

  // The two clocks ------------------------------------------------------------

  /** An alarm is set relative to the queue's clock, which lags behind. */
  ghost predicate Lagging(a: Alarm<Request>, clock: nat) {
    && a.at == a.who.elapsed + a.who.duration
    && a.who.elapsed <= a.who.at <= clock
  }

  /** The queue's clock is the time of the last decision, everybody in it has asked before
      now, and whoever was woken had asked before. */
  ghost predicate InStep(uses: seq<Use>) {
    var s := State(uses);
    && s.now == Elapsed(uses)
    && (forall i :: 0 <= i < |s.queue| ==> Lagging(s.queue[i], Clock(uses)))
    && (forall i :: 0 <= i < |s.log| ==> Lagging(s.log[i].alarm, s.log[i].time))
  }

  lemma {:induction false} QueueInStep(uses: seq<Use>)
    requires Timely(uses)
    ensures InStep(uses)
    decreases |uses|
  {
    if uses == [] {
      Beginning();
    } else {
      var before, u := uses[..|uses| - 1], uses[|uses| - 1];
      assert uses == before + [u];
      QueueInStep(before);
      ElapsedBefore(before);
      if u.SleepAt? {
        SleepInStep(before, u);
      } else {
        ScheduleInStep(before, u);
      }
    }
  }

  lemma SleepInStep(uses: seq<Use>, u: Use)
    requires InStep(uses) && u.SleepAt? && Elapsed(uses) <= Clock(uses) <= u.at
    ensures InStep(uses + [u])
  {
    hide Schedule, State, Events;
    StateAppend(uses, u);
    EventsAppend(uses, u);
    var s := State(uses);
    var a := Alarm(Request(u.pid, u.at, s.now, u.duration), s.now + u.duration);
    ScheduleMembers(s.queue, a);
    forall i | 0 <= i < |Schedule(s.queue, a)|
      ensures Lagging(Schedule(s.queue, a)[i], u.at)
    {
      var b := Schedule(s.queue, a)[i];
      assert b == a || b in s.queue;
    }
  }

  lemma {:induction false} ScheduleMembers<T>(q: seq<Alarm<T>>, a: Alarm<T>)
    ensures forall b :: b in Schedule(q, a) ==> b == a || b in q
  {
    if q != [] && q[0].at <= a.at {
      ScheduleMembers(q[1..], a);
    }
  }

  lemma ScheduleInStep(uses: seq<Use>, u: Use)
    requires InStep(uses) && u.ScheduleAt? && Elapsed(uses) <= Clock(uses) <= u.at
    ensures InStep(uses + [u])
  {
    hide State, Events, Due, Wakes;
    StateAppend(uses, u);
    EventsAppend(uses, u);
    var s := State(uses);
    var due := Due(s.queue, u.at);
    DueIsPrefix(s.queue, u.at);
    var log := s.log + Wakes(due, s.now, u.at);
    forall i | 0 <= i < |log|
      ensures Lagging(log[i].alarm, log[i].time)
    {
      WakesAt(s.log, due, s.now, u.at, i);
    }
  }

  lemma {:induction false} DueIsPrefix<T>(q: seq<Alarm<T>>, now: nat)
    ensures Due(q, now) == q[..|Due(q, now)|]
  {
    if q != [] && q[0].at <= now {
      DueIsPrefix(q[1..], now);
      assert q[..|Due(q, now)|] == [q[0]] + q[1..][..|Due(q[1..], now)|];
    }
  }

  // How early -----------------------------------------------------------------

  /** Over every run: a sleeper is woken by the first scheduling decision at or after the
      queue's clock at the time it asked plus its duration. So it is never woken before
      it asked, and early by no more than the time the queue's clock lagged behind. */
  lemma WakingTime(uses: seq<Use>, i: nat)
    requires Timely(uses) && i < |State(uses).log|
    ensures var w := State(uses).log[i];
            var r := w.alarm.who;
            && r.at <= w.time <= Elapsed(uses)
            && w.since <= r.elapsed + r.duration <= w.time
            && r.Expected() <= w.time + (r.at - r.elapsed)
  {
    hide State;
    QueueInStep(uses);
    StateSound(uses);
  }

  ghost predicate WokenEarly(s: Clockwork<Request>, r: Request) {
    exists i :: 0 <= i < |s.log| && s.log[i].alarm.who == r && s.log[i].time < r.Expected()
  }

  /** Exactly when a sleeper can be woken early, whatever is scheduled afterwards: the
      queue's clock lags behind, and the sleeper wants to sleep at all. */
  lemma EarlyIff(uses: seq<Use>, pid: nat, duration: nat, at: nat)
    requires Timely(uses + [SleepAt(pid, duration, at)])
    ensures var asked := uses + [SleepAt(pid, duration, at)];
            var r := Request(pid, at, Elapsed(uses), duration);
            (exists more: seq<Use> :: Timely(asked + more) && WokenEarly(State(asked + more), r))
              <==> Elapsed(uses) < at && duration > 0
  {
    var asked := uses + [SleepAt(pid, duration, at)];
    var r := Request(pid, at, Elapsed(uses), duration);
    hide State, Timely, Elapsed;
    forall more: seq<Use> | Timely(asked + more) && WokenEarly(State(asked + more), r)
      ensures Elapsed(uses) < at && duration > 0
    {
      var s := State(asked + more);
      var i :| 0 <= i < |s.log| && s.log[i].alarm.who == r && s.log[i].time < r.Expected();
      WakingTime(asked + more, i);
    }
    if Elapsed(uses) < at && duration > 0 {
      WakesEarly(uses, pid, duration, at);
    }
  }

  /** The next decision, even one taken at once, wakes it if the lag was long enough. */
  lemma WakesEarly(uses: seq<Use>, pid: nat, duration: nat, at: nat)
    requires Timely(uses + [SleepAt(pid, duration, at)]) && Elapsed(uses) < at && duration > 0
    ensures var due := Elapsed(uses) + duration;
            var more := [ScheduleAt(if at <= due then due else at)];
            var asked := uses + [SleepAt(pid, duration, at)];
            Timely(asked + more) && WokenEarly(State(asked + more), Request(pid, at, Elapsed(uses), duration))
  {
    hide State, Timely, Events, Due, Wakes, Schedule, Elapsed;
    var sleep, due := SleepAt(pid, duration, at), Elapsed(uses) + duration;
    var asked, decision := uses + [sleep], ScheduleAt(if at <= due then due else at);
    EventsAppend(uses, sleep);
    EventsAppend(asked, decision);
    StateAppend(uses, sleep);
    StateAppend(asked, decision);
    QueueInStep(uses);
    StateSound(asked);
    var s, s', a := State(uses), State(asked), Alarm(Request(pid, at, Elapsed(uses), duration), due);
    Contains(s.queue, a);
    FindsDue(s', a, decision.at);
  }

  lemma {:induction false} Contains<T>(q: seq<Alarm<T>>, a: Alarm<T>)
    ensures a in Schedule(q, a)
  {
    if q != [] && q[0].at <= a.at {
      Contains(q[1..], a);
      assert Schedule(q, a)[1..] == Schedule(q[1..], a);
    }
  }

  lemma FindsDue(s: Clockwork<Request>, a: Alarm<Request>, t: nat)
    requires Ordered(s.queue) && a in s.queue && s.now <= t && a.at <= t < a.who.Expected()
    ensures WokenEarly(Step(s, Tick(t - s.now)), a.who)
  {
    DueMeaning(s.queue, t);
    var due := Due(s.queue, t);
    hide Due, Wakes;
    var i :| 0 <= i < |s.queue| && s.queue[i] == a;
    assert s.queue[i].at <= t;
    assert due[i] == a;
    var log := s.log + Wakes(due, s.now, t);
    WakesCount(due, s.now, t);
    WakesAt(s.log, due, s.now, t, |s.log| + i);
    assert log[|s.log| + i].alarm.who == a.who;
  }

  lemma WakesCount<T>(due: seq<Alarm<T>>, since: nat, time: nat)
    ensures |Wakes(due, since, time)| == |due|
  {
  }

  /** Ten ticks after the last decision, a process asks for five and is woken at once. */
  lemma NotSleptAtAll()
    ensures var r := Request(1, 10, 0, 5);
            State([SleepAt(1, 5, 10), ScheduleAt(10)]).log == [Wake(Alarm(r, 5), 0, 10)]
  {
    hide State, Elapsed;
    var sleep, decision := SleepAt(1, 5, 10), ScheduleAt(10);
    var r := Request(1, 10, 0, 5);
    Beginning();
    StateAppend([], sleep);
    EventsAppend([], sleep);
    assert [] + [sleep] == [sleep] && [sleep] + [decision] == [sleep, decision];
    StateAppend([sleep], decision);
    OneSleeper(Alarm(r, 5), 10);
  }

  lemma OneSleeper(a: Alarm<Request>, t: nat)
    requires a.at <= t
    ensures Schedule([], a) == [a] && Step(Clockwork(0, [a], [a], []), Tick(t)).log == [Wake(a, 0, t)]
  {
    assert [a][1..] == [];
    assert Due([a], t) == [a];
  }

  // The code ------------------------------------------------------------------

  class Sleepers {
    const queue: DeltaQueue<Request>
    var elapsedTicks: nat
    ghost var uses: seq<Use>

    ghost predicate Valid()
      reads this, queue
    {
      && queue.Valid() && Timely(uses)
      && queue.history == Events(uses) && elapsedTicks == Elapsed(uses)
    }

    constructor ()
      ensures Valid() && fresh(queue) && uses == []
    {
      queue := new DeltaQueue();
      elapsedTicks, uses := 0, [];
    }

    /** The part of a scheduling decision that looks after sleepers. */
    method UpdateSleepQueue(currentTicks: nat)
      requires Valid() && Clock(uses) <= currentTicks
      modifies this, queue
      ensures Valid() && uses == old(uses) + [ScheduleAt(currentTicks)]
    {
      hide Events, Timely, Elapsed;
      ElapsedBefore(uses);
      EventsAppend(uses, ScheduleAt(currentTicks));
      var tickDuration := currentTicks - elapsedTicks;
      elapsedTicks := currentTicks;
      queue.Decrease(tickDuration);
      uses := uses + [ScheduleAt(currentTicks)];
    }

    /** Going to sleep at a given time, and the decision it leads to. */
    method Nanosleep(pid: nat, ticks: nat, asked: nat, decided: nat)
      requires Valid() && Clock(uses) <= asked <= decided
      modifies this, queue
      ensures Valid() && uses == old(uses) + [SleepAt(pid, ticks, asked), ScheduleAt(decided)]
    {
      hide Events, Timely, Elapsed;
      EventsAppend(uses, SleepAt(pid, ticks, asked));
      queue.Insert(Request(pid, asked, elapsedTicks, ticks), ticks);
      uses := uses + [SleepAt(pid, ticks, asked)];
      UpdateSleepQueue(decided);
      assert uses == old(uses) + [SleepAt(pid, ticks, asked), ScheduleAt(decided)];
    }
  }
}
