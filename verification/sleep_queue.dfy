// The kernel's delta queue: sleepers kept with the time between one wake-up and
// the next, against a queue that keeps absolute wake-up times.

module SleepQueue {

  datatype Sleeper<T> = Sleeper(who: T, delta: nat)

  datatype Alarm<T> = Alarm(who: T, at: nat)

  /** The wake-up times a delta list stands for, counted from now. */
  function Alarms<T>(list: seq<Sleeper<T>>, now: nat): (q: seq<Alarm<T>>)
    ensures |q| == |list|
    decreases |list|
  {
    if list == [] then []
    else [Alarm(list[0].who, now + list[0].delta)] + Alarms(list[1..], now + list[0].delta)
  }

  // The reference queue -------------------------------------------------------

  /** A new alarm goes behind every alarm that is due no later. */
  function Schedule<T>(q: seq<Alarm<T>>, a: Alarm<T>): seq<Alarm<T>> {
    if q == [] || a.at < q[0].at then [a] + q else [q[0]] + Schedule(q[1..], a)
  }

  /** The alarms due at the front of the queue. */
  function Due<T>(q: seq<Alarm<T>>, now: nat): (d: seq<Alarm<T>>)
    ensures |d| <= |q|
  {
    if q == [] || now < q[0].at then [] else [q[0]] + Due(q[1..], now)
  }

  function Pending<T>(q: seq<Alarm<T>>, now: nat): seq<Alarm<T>> {
    q[|Due(q, now)|..]
  }

  ghost predicate Ordered<T>(q: seq<Alarm<T>>) {
    forall i, j :: 0 <= i < j < |q| ==> q[i].at <= q[j].at
  }

  function Names<T>(q: seq<Alarm<T>>): seq<T> {
    seq(|q|, i requires 0 <= i < |q| => q[i].who)
  }

  // Delta lists stand for ordered queues --------------------------------------

  lemma {:induction false} AlarmsAt<T>(list: seq<Sleeper<T>>, now: nat, i: nat)
    requires i < |list|
    ensures Alarms(list, now)[i].who == list[i].who && Alarms(list, now)[i].at >= now
    decreases i
  {
    if i > 0 {
      AlarmsAt(list[1..], now + list[0].delta, i - 1);
    }
  }

  lemma {:induction false} AlarmsOrdered<T>(list: seq<Sleeper<T>>, now: nat)
    ensures Ordered(Alarms(list, now))
    decreases |list|
  {
    if list != [] {
      var later := now + list[0].delta;
      AlarmsOrdered(list[1..], later);
      forall j | 0 < j < |list|
        ensures later <= Alarms(list, now)[j].at
      {
        AlarmsAt(list[1..], later, j - 1);
      }
    }
  }

  lemma {:induction false} AlarmsAppend<T>(xs: seq<Sleeper<T>>, ys: seq<Sleeper<T>>, now: nat)
    ensures Alarms(xs + ys, now) == Alarms(xs, now) + Alarms(ys, now + Total(xs))
    decreases |xs|
  {
    if xs == [] {
      assert xs + ys == ys;
    } else {
      AlarmsAppend(xs[1..], ys, now + xs[0].delta);
      assert (xs + ys)[1..] == xs[1..] + ys;
    }
  }

  function Total<T>(list: seq<Sleeper<T>>): nat {
    if list == [] then 0 else list[0].delta + Total(list[1..])
  }

  lemma {:induction false} TotalAppend<T>(xs: seq<Sleeper<T>>, x: Sleeper<T>)
    ensures Total(xs + [x]) == Total(xs) + x.delta
  {
    if xs == [] {
      assert xs + [x] == [x];
    } else {
      TotalAppend(xs[1..], x);
      assert (xs + [x])[1..] == xs[1..] + [x];
    }
  }

  /** Behind a prefix that is due no later, an alarm is scheduled in the rest. */
  lemma {:induction false} ScheduleBehind<T>(p: seq<Alarm<T>>, q: seq<Alarm<T>>, a: Alarm<T>)
    requires forall i :: 0 <= i < |p| ==> p[i].at <= a.at
    ensures Schedule(p + q, a) == p + Schedule(q, a)
  {
    if p == [] {
      assert p + q == q && p + Schedule(q, a) == Schedule(q, a);
    } else {
      ScheduleBehind(p[1..], q, a);
      assert (p + q)[1..] == p[1..] + q;
      assert p == [p[0]] + p[1..];
    }
  }

  lemma {:induction false} AlarmsBounded<T>(list: seq<Sleeper<T>>, now: nat)
    ensures forall i :: 0 <= i < |list| ==> Alarms(list, now)[i].at <= now + Total(list)
    decreases |list|
  {
    if list != [] {
      AlarmsBounded(list[1..], now + list[0].delta);
    }
  }

  // What a tick wakes ---------------------------------------------------------

  lemma {:induction false} DueMeaning<T>(q: seq<Alarm<T>>, now: nat)
    requires Ordered(q)
    ensures Due(q, now) == q[..|Due(q, now)|]
    ensures forall i :: 0 <= i < |q| ==> (i < |Due(q, now)| <==> q[i].at <= now)
    decreases |q|
  {
    if q != [] && q[0].at <= now {
      DueMeaning(q[1..], now);
      var n := |Due(q[1..], now)|;
      assert q[..n + 1] == [q[0]] + q[1..][..n];
      forall i | 0 < i < |q|
        ensures i < n + 1 <==> q[i].at <= now
      {
        assert q[i] == q[1..][i - 1];
      }
    }
  }

  lemma {:induction false} DueSplit<T>(p: seq<Alarm<T>>, q: seq<Alarm<T>>, now: nat)
    requires forall i :: 0 <= i < |p| ==> p[i].at <= now
    requires q != [] ==> q[0].at > now
    ensures Due(p + q, now) == p && Pending(p + q, now) == q
    decreases |p|
  {
    if p == [] {
      assert p + q == q;
    } else {
      DueSplit(p[1..], q, now);
      assert (p + q)[1..] == p[1..] + q;
      assert p == [p[0]] + p[1..];
    }
  }

  /** The queue itself. The ghost fields record its clock, whom the callback was
      given, and everything that happened. */
  class DeltaQueue<T(==)> {
    var list: seq<Sleeper<T>>
    ghost var now: nat
    ghost var woken: seq<T>
    ghost var history: seq<Event<T>>

    /** The queue is where the reference clockwork is after the same events. */
    ghost predicate Valid()
      reads this
    {
      var s := Run(history);
      s.now == now && s.queue == Contents() && Names(Delivered(s.log)) == woken
    }

    /** The absolute wake-up times of those still asleep. */
    ghost function Contents(): seq<Alarm<T>>
      reads this
    {
      Alarms(list, now)
    }

    constructor ()
      ensures Valid() && history == [] && list == [] && now == 0 && woken == []
    {
      list, now, woken, history := [], 0, [], [];
    }

    /** Advances the clock: exactly the alarms now due are delivered, in order, and
        every other wake-up time is kept. */
    method Decrease(duration0: nat)
      requires Valid()
      modifies this
      ensures Valid() && history == old(history) + [Tick(duration0)]
      ensures now == old(now) + duration0
      ensures woken == old(woken) + Names(Due(old(Contents()), now))
      ensures Contents() == Pending(old(Contents()), now)
    {
      hide Alarms, Due, Run, Delivered, Names, Pending;
      var duration: nat := duration0;
      RunTick(history, duration0);
      NoAlarms<T>(now);
      ghost var all, gone: seq<Alarm<T>>, limit := Contents(), [], now + duration0;
      assert all == gone + Alarms(list, now) && woken == old(woken) + Names(gone);
      while duration >= 0 && list != []
        invariant now + duration == limit && history == old(history)
        invariant all == gone + Alarms(list, now)
        invariant forall i :: 0 <= i < |gone| ==> gone[i].at <= limit
        invariant woken == old(woken) + Names(gone)
        decreases |list|
      {
        var oldValue := list[0].delta;
        FrontAlarm(list, now, duration);
        ghost var front := Alarm(list[0].who, now + list[0].delta);
        Pop(all, gone, front, Alarms(list[1..], front.at));
        if duration >= list[0].delta {
          woken := woken + [list[0].who];
          list := list[1..];
        } else {
          list := [Sleeper(list[0].who, list[0].delta - duration)] + list[1..];
        }
        if oldValue > duration {
          now := limit;
          DueSplit(gone, Alarms(list, now), limit);
          history := history + [Tick(duration0)];
          return;
        } else {
          duration := duration - oldValue;
          now := now + oldValue;
          gone := gone + [front];
        }
      }
      now := limit;
      NoAlarms<T>(limit);
      DueSplit(gone, [], limit);
      assert gone + [] == gone;
      history := history + [Tick(duration0)];
    }

    /** Adds a sleeper: it goes behind everyone who wakes no later. */
    method Insert(who: T, sleepDuration: nat)
      requires Valid()
      modifies this`list, this`history
      ensures Valid() && history == old(history) + [Sleep(who, sleepDuration)]
      ensures Contents() == Schedule(old(Contents()), Alarm(who, now + sleepDuration))
    {
      hide Alarms, Schedule, Total, Run, Delivered;
      RunSleep(history, who, sleepDuration);
      ghost var before := list;
      var d: nat := sleepDuration;
      var it := 0;
      assert Total(list[..it]) == 0 by {
        NothingBefore(list);
      }
      while it < |list|
        invariant 0 <= it <= |list| && list == before && history == old(history)
        invariant d + Total(list[..it]) == sleepDuration
      {
        if d < list[it].delta {
          break;
        }
        d := d - list[it].delta;
        assert list[..it + 1] == list[..it] + [list[it]];
        TotalAppend(list[..it], list[it]);
        it := it + 1;
      }
      InsertedAlarms(list, it, who, d, now);
      list := list[..it] + [Sleeper(who, d)] + list[it..];
      if it + 1 < |list| {
        list := list[it + 1 := Sleeper(list[it + 1].who, list[it + 1].delta - list[it].delta)];
      }
      assert list == before[..it] + Rest(before[it..], who, d);
      history := history + [Sleep(who, sleepDuration)];
    }

    /** So every use of the queue is sound in its own clock, which counts the ticks it was
        given: nobody is woken early, late or twice. */
    lemma EveryUseIsSound()
      requires Valid()
      ensures Sound(Run(history)) && Contents() == Run(history).queue && woken == Names(Delivered(Run(history).log))
    {
      RunSound(history);
    }
  }

  /** The first of the alarms still to come joins those that went off. */
  lemma Pop<T>(all: seq<Alarm<T>>, gone: seq<Alarm<T>>, front: Alarm<T>, rest: seq<Alarm<T>>)
    requires all == gone + ([front] + rest)
    ensures all == (gone + [front]) + rest && Names(gone + [front]) == Names(gone) + [front.who]
  {
  }

  lemma NoAlarms<T>(now: nat)
    ensures Alarms<T>([], now) == [] && Names<T>([]) == []
  {
  }

  /** The first alarm of a list, and that time passing before it changes nothing. */
  lemma FrontAlarm<T>(list: seq<Sleeper<T>>, now: nat, passed: nat)
    requires list != []
    ensures var first := list[0];
            && Alarms(list, now) == [Alarm(first.who, now + first.delta)] + Alarms(list[1..], now + first.delta)
            && (passed <= first.delta ==>
                  Alarms([Sleeper(first.who, first.delta - passed)] + list[1..], now + passed) == Alarms(list, now))
  {
    if passed <= list[0].delta {
      var shorter := [Sleeper(list[0].who, list[0].delta - passed)] + list[1..];
      assert shorter[1..] == list[1..];
    }
  }

  lemma NothingBefore<T>(list: seq<Sleeper<T>>)
    ensures Total(list[..0]) == 0
  {
  }

  /** What follows the insertion point afterwards: the new sleeper, whose share is
      taken off its successor. */
  function Rest<T>(q: seq<Sleeper<T>>, who: T, d: nat): seq<Sleeper<T>>
    requires q != [] ==> d < q[0].delta
  {
    [Sleeper(who, d)] + if q == [] then [] else [Sleeper(q[0].who, q[0].delta - d)] + q[1..]
  }

  lemma RestAlarms<T>(q: seq<Sleeper<T>>, who: T, d: nat, now: nat)
    requires q != [] ==> d < q[0].delta
    ensures Alarms(Rest(q, who, d), now) == Schedule(Alarms(q, now), Alarm(who, now + d))
  {
    if q != [] {
      var s := [Sleeper(q[0].who, q[0].delta - d)] + q[1..];
      assert ([Sleeper(who, d)] + s)[1..] == s && s[1..] == q[1..];
      assert Alarms(s, now + d) == Alarms(q, now);
    } else {
      assert [Sleeper(who, d)][1..] == [];
    }
  }

  lemma InsertedAlarms<T>(list: seq<Sleeper<T>>, it: nat, who: T, d: nat, now: nat)
    requires it <= |list| && (it < |list| ==> d < list[it].delta)
    ensures Alarms(list[..it] + Rest(list[it..], who, d), now) ==
              Schedule(Alarms(list, now), Alarm(who, now + Total(list[..it]) + d))
  {
    hide Alarms, Schedule, Total, Rest;
    var p, q := list[..it], list[it..];
    assert list == p + q;
    AlarmsAppend(p, q, now);
    AlarmsAppend(p, Rest(q, who, d), now);
    AlarmsBounded(p, now);
    RestAlarms(q, who, d, now + Total(p));
    ScheduleBehind(Alarms(p, now), Alarms(q, now + Total(p)), Alarm(who, now + Total(p) + d));
  }

  // Whole runs ----------------------------------------------------------------

  /** One use of the queue by the kernel. */
  datatype Event<T> = Sleep(who: T, duration: nat) | Tick(duration: nat)

  /** An alarm that went off: the clock reading before the tick that found it due,
      and the reading at that tick. */
  datatype Wake<T> = Wake(alarm: Alarm<T>, since: nat, time: nat)

  /** The reference queue with its clock, and everything it was asked and did. */
  datatype Clockwork<T> = Clockwork(now: nat, queue: seq<Alarm<T>>, asked: seq<Alarm<T>>, log: seq<Wake<T>>)

  function Wakes<T>(due: seq<Alarm<T>>, since: nat, time: nat): seq<Wake<T>> {
    seq(|due|, i requires 0 <= i < |due| => Wake(due[i], since, time))
  }

  /** One event, as the methods of the queue are specified. */
  function Step<T>(s: Clockwork<T>, e: Event<T>): Clockwork<T> {
    match e
    case Sleep(who, d) =>
      var a := Alarm(who, s.now + d);
      s.(queue := Schedule(s.queue, a), asked := s.asked + [a])
    case Tick(d) =>
      var t := s.now + d;
      Clockwork(t, Pending(s.queue, t), s.asked, s.log + Wakes(Due(s.queue, t), s.now, t))
  }

  function Run<T>(events: seq<Event<T>>): Clockwork<T> {
    if events == [] then Clockwork(0, [], [], [])
    else Step(Run(events[..|events| - 1]), events[|events| - 1])
  }

  lemma RunAppend<T>(events: seq<Event<T>>, e: Event<T>)
    ensures Run(events + [e]) == Step(Run(events), e)
  {
    assert (events + [e])[..|events|] == events;
  }

  lemma RunTick<T>(events: seq<Event<T>>, d: nat)
    ensures var s, r := Run(events), Run(events + [Tick(d)]);
            && r.now == s.now + d && r.queue == Pending(s.queue, r.now)
            && Names(Delivered(r.log)) == Names(Delivered(s.log)) + Names(Due(s.queue, r.now))
  {
    RunAppend(events, Tick(d));
    hide Run;
    var s := Run(events);
    var t := s.now + d;
    DeliveredAppend(s.log, Due(s.queue, t), s.now, t);
  }

  lemma RunSleep<T>(events: seq<Event<T>>, who: T, d: nat)
    ensures var s, r := Run(events), Run(events + [Sleep(who, d)]);
            r.now == s.now && r.queue == Schedule(s.queue, Alarm(who, s.now + d)) && r.log == s.log
  {
    RunAppend(events, Sleep(who, d));
  }

  /** The alarms delivered. */
  function Delivered<T>(log: seq<Wake<T>>): seq<Alarm<T>> {
    seq(|log|, i requires 0 <= i < |log| => log[i].alarm)
  }

  /** Alarms are ordered and none is overdue. */
  ghost predicate NoneOverdue<T>(s: Clockwork<T>) {
    Ordered(s.queue) && forall i :: 0 <= i < |s.queue| ==> s.now <= s.queue[i].at
  }

  /** No alarm went off early, nor later than the first tick that reached it, and
      alarms went off in the order of their times. */
  ghost predicate OnTime<T>(s: Clockwork<T>) {
    && (forall i :: 0 <= i < |s.log| ==> s.log[i].since <= s.log[i].alarm.at <= s.log[i].time <= s.now)
    && (forall i, j :: 0 <= i < j < |s.log| ==> s.log[i].alarm.at <= s.log[j].alarm.at)
  }

  /** Every request is either pending or delivered, exactly once. */
  ghost predicate Balanced<T>(s: Clockwork<T>) {
    multiset(s.asked) == multiset(s.queue) + multiset(Delivered(s.log))
  }

  /** The alarms of one time, in order. */
  function AtTime<T>(q: seq<Alarm<T>>, x: nat): seq<Alarm<T>> {
    if q == [] then [] else if q[0].at == x then [q[0]] + AtTime(q[1..], x) else AtTime(q[1..], x)
  }

  /** Those who wake at the same time go off in the order in which they went to sleep. */
  ghost predicate FirstComeFirstServed<T>(s: Clockwork<T>) {
    forall x: nat :: AtTime(Delivered(s.log) + s.queue, x) == AtTime(s.asked, x)
  }

  ghost predicate Sound<T>(s: Clockwork<T>) {
    NoneOverdue(s) && OnTime(s) && Balanced(s) && FirstComeFirstServed(s)
  }

  lemma {:induction false} AtTimeAppend<T>(p: seq<Alarm<T>>, q: seq<Alarm<T>>, x: nat)
    ensures AtTime(p + q, x) == AtTime(p, x) + AtTime(q, x)
  {
    if p == [] {
      assert p + q == q;
    } else {
      AtTimeAppend(p[1..], q, x);
      assert (p + q)[1..] == p[1..] + q;
    }
  }

  lemma {:induction false} NoneAtTime<T>(q: seq<Alarm<T>>, x: nat)
    requires forall i :: 0 <= i < |q| ==> q[i].at != x
    ensures AtTime(q, x) == []
  {
    if q != [] {
      NoneAtTime(q[1..], x);
    }
  }

  /** A new alarm comes behind those due no later and before those due later. */
  lemma ScheduleMeaning<T>(q: seq<Alarm<T>>, a: Alarm<T>) returns (k: nat)
    requires Ordered(q)
    ensures k <= |q| && Schedule(q, a) == q[..k] + [a] + q[k..]
    ensures forall i :: 0 <= i < |q| ==> (i < k <==> q[i].at <= a.at)
  {
    k := |Due(q, a.at)|;
    DueMeaning(q, a.at);
    var front, back := q[..k], q[k..];
    assert q == front + back;
    assert Schedule(back, a) == [a] + back;
    hide Schedule, Due, Ordered;
    ScheduleBehind(front, back, a);
    assert front + ([a] + back) == front + [a] + back;
  }

  lemma ScheduleAtTime<T>(q: seq<Alarm<T>>, a: Alarm<T>, x: nat)
    requires Ordered(q)
    ensures AtTime(Schedule(q, a), x) == AtTime(q, x) + AtTime([a], x)
  {
    var k := ScheduleMeaning(q, a);
    hide AtTime, Schedule;
    var front, back := q[..k], q[k..];
    assert q == front + back;
    AtTimeAppend(front, back, x);
    AtTimeAppend(front + [a], back, x);
    AtTimeAppend(front, [a], x);
    if a.at == x {
      NoneAtTime(back, x);
    } else {
      NoneAtTime([a], x);
    }
  }

  lemma SleepServed<T>(s: Clockwork<T>, who: T, d: nat)
    requires Ordered(s.queue) && FirstComeFirstServed(s)
    ensures FirstComeFirstServed(Step(s, Sleep(who, d)))
  {
    hide AtTime, Schedule, Delivered, Ordered;
    var a := Alarm(who, s.now + d);
    forall x: nat
      ensures AtTime(Delivered(s.log) + Schedule(s.queue, a), x) == AtTime(s.asked + [a], x)
    {
      ScheduleAtTime(s.queue, a, x);
      AtTimeAppend(Delivered(s.log), Schedule(s.queue, a), x);
      AtTimeAppend(Delivered(s.log), s.queue, x);
      AtTimeAppend(s.asked, [a], x);
    }
  }

  lemma TickServed<T>(s: Clockwork<T>, d: nat)
    requires Ordered(s.queue) && FirstComeFirstServed(s)
    ensures FirstComeFirstServed(Step(s, Tick(d)))
  {
    hide AtTime, Due, Wakes, Delivered, Ordered;
    var t := s.now + d;
    DueMeaning(s.queue, t);
    var due, rest := Due(s.queue, t), Pending(s.queue, t);
    DeliveredAppend(s.log, due, s.now, t);
    assert Delivered(s.log) + s.queue == (Delivered(s.log) + due) + rest;
  }

  lemma {:induction false} ScheduleBag<T>(q: seq<Alarm<T>>, a: Alarm<T>)
    ensures multiset(Schedule(q, a)) == multiset(q) + multiset{a}
    decreases |q|
  {
    if q != [] && q[0].at <= a.at {
      ScheduleBag(q[1..], a);
      assert q == [q[0]] + q[1..];
    }
  }

  lemma {:induction false} ScheduleOrdered<T>(q: seq<Alarm<T>>, a: Alarm<T>, low: nat)
    requires Ordered(q) && low <= a.at && forall i :: 0 <= i < |q| ==> low <= q[i].at
    ensures Ordered(Schedule(q, a)) && forall i :: 0 <= i < |Schedule(q, a)| ==> low <= Schedule(q, a)[i].at
    decreases |q|
  {
    if q != [] && q[0].at <= a.at {
      ScheduleOrdered(q[1..], a, q[0].at);
    }
  }

  lemma SleepSound<T>(s: Clockwork<T>, who: T, d: nat)
    requires Sound(s)
    ensures Sound(Step(s, Sleep(who, d)))
  {
    hide Schedule, Delivered, FirstComeFirstServed;
    var a := Alarm(who, s.now + d);
    ScheduleOrdered(s.queue, a, s.now);
    ScheduleBag(s.queue, a);
    SleepServed(s, who, d);
  }

  lemma TickNoneOverdue<T>(s: Clockwork<T>, d: nat)
    requires NoneOverdue(s)
    ensures NoneOverdue(Step(s, Tick(d)))
  {
    var t := s.now + d;
    DueMeaning(s.queue, t);
    var n, rest := |Due(s.queue, t)|, Pending(s.queue, t);
    assert forall i :: 0 <= i < |rest| ==> rest[i] == s.queue[n + i];
  }

  lemma TickOnTime<T>(s: Clockwork<T>, d: nat)
    requires NoneOverdue(s) && OnTime(s)
    ensures OnTime(Step(s, Tick(d)))
  {
    var t := s.now + d;
    DueMeaning(s.queue, t);
    var due, n := Due(s.queue, t), |s.log|;
    assert forall i :: 0 <= i < |due| ==> due[i] == s.queue[i];
    var log := s.log + Wakes(due, s.now, t);
    hide Due, Wakes;
    forall i | 0 <= i < |log|
      ensures log[i].since <= log[i].alarm.at <= log[i].time <= t
    {
      WakesAt(s.log, due, s.now, t, i);
    }
    forall i, j | 0 <= i < j < |log|
      ensures log[i].alarm.at <= log[j].alarm.at
    {
      WakesAt(s.log, due, s.now, t, i);
      WakesAt(s.log, due, s.now, t, j);
    }
  }

  lemma WakesAt<T>(log: seq<Wake<T>>, due: seq<Alarm<T>>, since: nat, time: nat, i: nat)
    requires i < |log + Wakes(due, since, time)|
    ensures |log + Wakes(due, since, time)| == |log| + |due|
    ensures (log + Wakes(due, since, time))[i] == if i < |log| then log[i] else Wake(due[i - |log|], since, time)
  {
  }

  lemma TickBalanced<T>(s: Clockwork<T>, d: nat)
    requires NoneOverdue(s) && Balanced(s)
    ensures Balanced(Step(s, Tick(d)))
  {
    hide Due, Wakes, Delivered, Ordered;
    var t := s.now + d;
    DueMeaning(s.queue, t);
    var due, rest := Due(s.queue, t), Pending(s.queue, t);
    assert s.queue == due + rest;
    DeliveredAppend(s.log, due, s.now, t);
    MoveOver(s.asked, due, rest, Delivered(s.log));
  }

  lemma DeliveredAppend<T>(log: seq<Wake<T>>, due: seq<Alarm<T>>, since: nat, time: nat)
    ensures Delivered(log + Wakes(due, since, time)) == Delivered(log) + due
  {
  }

  lemma MoveOver<T>(asked: seq<T>, due: seq<T>, rest: seq<T>, done: seq<T>)
    requires multiset(asked) == multiset(due + rest) + multiset(done)
    ensures multiset(asked) == multiset(rest) + multiset(done + due)
  {
  }

  /** Soundness over every run. */
  lemma {:induction false} RunSound<T>(events: seq<Event<T>>)
    ensures Sound(Run(events))
    decreases |events|
  {
    if events != [] {
      hide Step, OnTime, Balanced, FirstComeFirstServed, Ordered;
      RunSound(events[..|events| - 1]);
      match events[|events| - 1]
      case Sleep(who, d) => SleepSound(Run(events[..|events| - 1]), who, d);
      case Tick(d) =>
        TickNoneOverdue(Run(events[..|events| - 1]), d);
        TickOnTime(Run(events[..|events| - 1]), d);
        TickBalanced(Run(events[..|events| - 1]), d);
        TickServed(Run(events[..|events| - 1]), d);
    }
  }
}
