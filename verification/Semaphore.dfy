/** The concurrency gate of lib/Common.js (`semaphore`): tasks arrive over time, at most `limit` run at once, and the
    others wait in order of arrival. */
module Semaphore {
  import Sets

  type Task = nat

  /** The closure state of a semaphore, and the tasks it has started, in order. */
  datatype Gate = Gate(active: int, queue: seq<Task>, started: seq<Task>)

  /** A task arrives, or a running one settles, by its value or by its rejection. */
  datatype Event = Arrive(task: Task) | Settle(task: Task, ok: bool)

  function Apply(limit: nat, g: Gate, e: Event): Gate {
    match e
    case Arrive(t) =>
      if g.active < limit then Gate(g.active + 1, g.queue, g.started + [t]) else g.(queue := g.queue + [t])
    case Settle(_, _) =>
      if g.queue == [] then g.(active := g.active - 1)
      else Gate(g.active - 1 + 1, g.queue[1..], g.started + [g.queue[0]])
  }

  class Semaphore {
    const limit: nat
    var active: int
    var queue: seq<Task>
    ghost var started: seq<Task>

    ghost function State(): Gate
      reads this
    {
      Gate(active, queue, started)
    }

    constructor (max: int)
      ensures limit == (if max > 1 then max else 1) && State() == Gate(0, [], [])
    {
      limit := if max > 1 then max else 1;
      active, queue, started := 0, [], [];
    }

    /** `run`: starts the task now or queues it. */
    method Run(task: Task) returns (startNow: bool)
      modifies this
      ensures State() == Apply(limit, old(State()), Arrive(task))
      ensures startNow <==> old(active) < limit
    {
      if active < limit {
        active := active + 1;
        started := started + [task];
        startNow := true;
      } else {
        queue := queue + [task];
        startNow := false;
      }
    }

    /** `release`, once the task has settled either way. */
    method Release(task: Task, ok: bool)
      modifies this
      ensures State() == Apply(limit, old(State()), Settle(task, ok))
    {
      active := active - 1;
      if queue != [] {
        var next := queue[0];
        queue := queue[1..];
        active := active + 1;
        started := started + [next];
      }
    }
  }

  // ----- histories -----

  function Arrived(h: seq<Event>): seq<Task> {
    if h == [] then []
    else
      var before, e := Arrived(h[..|h| - 1]), h[|h| - 1];
      if e.Arrive? then before + [e.task] else before
  }

  function Settled(h: seq<Event>): set<Task> {
    if h == [] then {}
    else
      var before, e := Settled(h[..|h| - 1]), h[|h| - 1];
      if e.Settle? then before + {e.task} else before
  }

  function After(limit: nat, h: seq<Event>): Gate {
    if h == [] then Gate(0, [], []) else Apply(limit, After(limit, h[..|h| - 1]), h[|h| - 1])
  }

  /** Every task arrives once, and settles once, after it was started. */
  predicate Legal(limit: nat, h: seq<Event>) {
    h == [] ||
    var front, e := h[..|h| - 1], h[|h| - 1];
    && Legal(limit, front)
    && (e.Arrive? ==> e.task !in Arrived(front))
    && (e.Settle? ==> e.task in After(limit, front).started && e.task !in Settled(front))
  }

  function Min(a: int, b: int): int { if a < b then a else b }

  predicate NoRepeats(s: seq<Task>) { forall i, j :: 0 <= i < j < |s| ==> s[i] != s[j] }

  function Elements(s: seq<Task>): (e: set<Task>)
    ensures forall t :: t in e <==> t in s
  {
    set t | t in s
  }

  lemma {:induction false} ElementCount(s: seq<Task>)
    requires NoRepeats(s)
    ensures |Elements(s)| == |s|
  {
    if s == [] {
      assert Elements(s) == {};
    } else {
      var front, last := s[..|s| - 1], s[|s| - 1];
      ElementCount(front);
      assert last !in front;
      assert Elements(s) == Elements(front) + {last};
    }
  }

  function Running(limit: nat, h: seq<Event>): set<Task> {
    Elements(After(limit, h).started) - Settled(h)
  }

  /** Exactly the first limit + (number settled) arrivals have been started, in order of arrival; the others are
      queued in order; and `active` counts the running tasks. */
  ghost predicate Exact(limit: nat, arrived: seq<Task>, settled: set<Task>, g: Gate) {
    && NoRepeats(arrived) && settled <= Elements(g.started) && |settled| <= |arrived|
    && g.started == arrived[..Min(|arrived|, limit + |settled|)]
    && g.queue == arrived[Min(|arrived|, limit + |settled|)..]
    && g.active == Min(|arrived| - |settled|, limit)
  }

  lemma ExactArrive(limit: nat, arrived: seq<Task>, settled: set<Task>, g: Gate, t: Task)
    requires limit >= 1 && Exact(limit, arrived, settled, g) && t !in arrived
    ensures Exact(limit, arrived + [t], settled, Apply(limit, g, Arrive(t)))
  {
    var m := Min(|arrived|, limit + |settled|);
    OneMoreArrived(arrived, m, t);
    hide NoRepeats, Elements;
    assert settled <= Elements(Apply(limit, g, Arrive(t)).started) by { ElementsGrow(g.started, t); }
  }

  lemma ElementsGrow(s: seq<Task>, t: Task)
    ensures Elements(s) <= Elements(s + [t])
  {}

  lemma OneMoreArrived(arrived: seq<Task>, m: nat, t: Task)
    requires m <= |arrived|
    ensures NoRepeats(arrived) && t !in arrived ==> NoRepeats(arrived + [t])
    ensures (arrived + [t])[..m] == arrived[..m] && (arrived + [t])[m..] == arrived[m..] + [t]
    ensures m == |arrived| ==> arrived[..m] + [t] == (arrived + [t])[..m + 1] && (arrived + [t])[m + 1..] == []
  {}

  lemma ExactSettle(limit: nat, arrived: seq<Task>, settled: set<Task>, g: Gate, t: Task, ok: bool)
    requires limit >= 1 && Exact(limit, arrived, settled, g) && t in g.started && t !in settled
    ensures Exact(limit, arrived, settled + {t}, Apply(limit, g, Settle(t, ok)))
  {
    hide NoRepeats;
    var m := Min(|arrived|, limit + |settled|);
    OneMoreSettled(arrived, m, settled, t);
    if m < |arrived| { NextStarts(arrived, m); }
  }

  lemma OneMoreSettled(arrived: seq<Task>, m: nat, settled: set<Task>, t: Task)
    requires NoRepeats(arrived) && m <= |arrived|
    requires settled <= Elements(arrived[..m]) && t in arrived[..m] && t !in settled
    ensures |settled + {t}| == |settled| + 1 <= m
  {
    NoRepeatsPrefix(arrived, m);
    hide NoRepeats;
    ElementCount(arrived[..m]);
    Sets.SubsetSize(settled + {t}, Elements(arrived[..m]));
  }

  lemma NextStarts(arrived: seq<Task>, m: nat)
    requires m < |arrived|
    ensures arrived[m..][1..] == arrived[m + 1..] && arrived[..m] + [arrived[m..][0]] == arrived[..m + 1]
    ensures Elements(arrived[..m]) <= Elements(arrived[..m + 1])
  {
    assert forall x :: x in arrived[..m] ==> x in arrived[..m + 1];
  }

  lemma NoRepeatsPrefix(s: seq<Task>, m: nat)
    requires NoRepeats(s) && m <= |s|
    ensures NoRepeats(s[..m])
  {}

  /** After any history the semaphore has started exactly the first limit + (number settled) tasks that arrived. */
  lemma {:induction false} StartedExactly(limit: nat, h: seq<Event>)
    requires limit >= 1 && Legal(limit, h)
    ensures Exact(limit, Arrived(h), Settled(h), After(limit, h))
  {
    if h == [] {
    } else {
      hide Exact, Apply;
      var front, e := h[..|h| - 1], h[|h| - 1];
      StartedExactly(limit, front);
      match e
      case Arrive(t) => ExactArrive(limit, Arrived(front), Settled(front), After(limit, front), t);
      case Settle(t, ok) => ExactSettle(limit, Arrived(front), Settled(front), After(limit, front), t, ok);
    }
  }

  /** Never more than `limit` tasks run; no task waits while a slot is free; and every slot is freed exactly once. */
  lemma LimitRespected(limit: nat, h: seq<Event>)
    requires limit >= 1 && Legal(limit, h)
    ensures |Running(limit, h)| == After(limit, h).active <= limit
    ensures After(limit, h).queue != [] ==> |Running(limit, h)| == limit
  {
    hide Legal, Arrived, After, Settled;
    StartedExactly(limit, h);
    var g, d := After(limit, h), Settled(h);
    NoRepeatsPrefix(Arrived(h), Min(|Arrived(h)|, limit + |d|));
    ElementCount(g.started);
    assert |Elements(g.started) - d| == |Elements(g.started)| - |Elements(g.started) * d|;
    assert Elements(g.started) * d == d;
  }
}
