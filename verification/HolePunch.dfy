/** The direct-connection attempts of lib/HolePunch.js (`punch`): repeated TCP dials that settle exactly once. */
module HolePunch {
  import opened Wrappers

  const PUNCH_MAX_ATTEMPTS: nat := 64

  /** A dialled socket: whether its attempt has been resolved, and whether it was destroyed. */
  datatype Socket = Socket(handled: bool, destroyed: bool)

  /** The closure variables: sockets are numbered as they are opened; `retries` counts pending retry timers; `results`
      lists what the promise was resolved with, a socket or null. */
  datatype State = State(sockets: seq<Socket>, cur: Option<nat>, attempts: nat, retries: nat, deadlineSet: bool,
                         results: seq<Option<nat>>) {
    predicate Settled() { results != [] }
  }

  datatype Event =
    | Connect(s: nat)                       // the socket connects
    | Fail(s: nat)                          // the socket reports an error, or its per-attempt timer fires
    | Retry(late: bool, throws: bool)       // a retry timer fires, past the deadline if `late`; its dial may throw
    | Deadline                              // the overall timer fires

  predicate Enabled(st: State, e: Event) {
    match e
    case Connect(s) => s < |st.sockets|
    case Fail(s) => s < |st.sockets|
    case Retry(_, _) => st.retries > 0
    case Deadline => st.deadlineSet
  }

  function Handle(st: State, s: nat, destroy: bool): State
    requires s < |st.sockets|
  {
    st.(sockets := st.sockets[s := Socket(true, destroy || st.sockets[s].destroyed)])
  }

  /** `win` */
  function Win(st: State, s: nat): State {
    if st.Settled() then st
    else st.(deadlineSet := false, retries := if st.retries > 0 then st.retries - 1 else 0, results := [Some(s)])
  }

  /** `fail` */
  function GiveUp(st: State): State {
    if st.Settled() then st
    else
      var stopped := st.(retries := if st.retries > 0 then st.retries - 1 else 0, results := [None]);
      if st.cur.Some? && st.cur.value < |st.sockets| then
        stopped.(sockets := st.sockets[st.cur.value := st.sockets[st.cur.value].(destroyed := true)])
      else stopped
  }

  /** `schedule` */
  function Schedule(st: State): State {
    if st.Settled() then st else st.(retries := st.retries + 1)
  }

  /** `attempt` */
  function Attempt(st: State, late: bool, throws: bool): State {
    if st.Settled() then st
    else if late then GiveUp(st)
    else if st.attempts + 1 > PUNCH_MAX_ATTEMPTS then GiveUp(st.(attempts := st.attempts + 1))
    else
      var dialled := st.(attempts := st.attempts + 1);
      if throws then Schedule(dialled)
      else dialled.(sockets := st.sockets + [Socket(false, false)], cur := Some(|st.sockets|))
  }

  function Apply(st: State, e: Event): State
    requires Enabled(st, e)
  {
    match e
    case Connect(s) =>
      if st.sockets[s].handled then st
      else if st.Settled() then Handle(st, s, true)
      else Win(Handle(st, s, false), s)
    case Fail(s) =>
      if st.sockets[s].handled then st else Schedule(Handle(st, s, true))
    case Retry(late, throws) => Attempt(st.(retries := st.retries - 1), late, throws)
    case Deadline => GiveUp(st.(deadlineSet := false))
  }

  const START: State := State([], None, 0, 0, true, [])

  /** The closure itself. */
  class Punch {
    var sockets: seq<Socket>
    var cur: Option<nat>
    var attempts: nat
    var retries: nat
    var deadlineSet: bool
    var settled: bool
    ghost var results: seq<Option<nat>>

    ghost function View(): State
      reads this
    {
      State(sockets, cur, attempts, retries, deadlineSet, results)
    }

    ghost predicate Valid()
      reads this
    {
      settled <==> View().Settled()
    }

    /** `punch`, up to and including its first attempt. A refused address or port resolves to null at once, with no
        timer and no dial. */
    constructor (permitted: bool, late: bool, throws: bool)
      ensures Valid()
      ensures View() == if permitted then Attempt(START, late, throws)
                        else START.(deadlineSet := false, results := [None])
    {
      sockets, cur, attempts, retries := [], None, 0, 0;
      deadlineSet, settled, results := permitted, !permitted, if permitted then [] else [None];
      new;
      if permitted { Dial(late, throws); }
    }

    method Stop(result: Option<nat>)
      requires Valid() && !settled
      modifies this
      ensures Valid()
      ensures View() == old(View()).(retries := if old(retries) > 0 then old(retries) - 1 else 0, results := [result])
    {
      settled := true;
      results := results + [result];
      if retries > 0 { retries := retries - 1; }
    }

    method Fails()
      requires Valid()
      modifies this
      ensures Valid() && View() == GiveUp(old(View()))
    {
      if settled { return; }
      Stop(None);
      if cur.Some? && cur.value < |sockets| {
        sockets := sockets[cur.value := sockets[cur.value].(destroyed := true)];
      }
    }

    method Dial(late: bool, throws: bool)
      requires Valid()
      modifies this
      ensures Valid() && View() == Attempt(old(View()), late, throws)
    {
      if settled { return; }
      if late { Fails(); return; }
      attempts := attempts + 1;
      if attempts > PUNCH_MAX_ATTEMPTS { Fails(); return; }
      if throws {
        retries := retries + 1;
        return;
      }
      cur := Some(|sockets|);
      sockets := sockets + [Socket(false, false)];
    }

    method OnConnect(s: nat)
      requires Valid() && Enabled(View(), Connect(s))
      modifies this
      ensures Valid() && View() == Apply(old(View()), Connect(s))
    {
      if sockets[s].handled { return; }
      sockets := sockets[s := sockets[s].(handled := true)];
      if settled {
        sockets := sockets[s := sockets[s].(destroyed := true)];
        return;
      }
      deadlineSet := false;
      Stop(Some(s));
    }

    method OnFailure(s: nat)
      requires Valid() && Enabled(View(), Fail(s))
      modifies this
      ensures Valid() && View() == Apply(old(View()), Fail(s))
    {
      if sockets[s].handled { return; }
      sockets := sockets[s := Socket(true, true)];
      if !settled { retries := retries + 1; }
    }

    method OnRetry(late: bool, throws: bool)
      requires Valid() && Enabled(View(), Retry(late, throws))
      modifies this
      ensures Valid() && View() == Apply(old(View()), Retry(late, throws))
    {
      retries := retries - 1;
      Dial(late, throws);
    }

    method OnDeadline()
      requires Valid() && Enabled(View(), Deadline)
      modifies this
      ensures Valid() && View() == Apply(old(View()), Deadline)
    {
      deadlineSet := false;
      Fails();
    }
  }

  // ----- every ordering of events -----

  /** While unsettled there is either one unresolved socket, the current one, or one pending retry; all others are
      resolved and destroyed. Once settled, nothing is undestroyed but the socket that was returned. */
  ghost predicate Inv(st: State) {
    && |st.sockets| <= st.attempts <= PUNCH_MAX_ATTEMPTS + 1 && |st.sockets| <= PUNCH_MAX_ATTEMPTS && |st.results| <= 1
    && (st.cur.Some? <==> |st.sockets| > 0) && (st.cur.Some? ==> st.cur.value == |st.sockets| - 1)
    && (forall s :: 0 <= s < |st.sockets| - 1 ==> st.sockets[s] == Socket(true, true))
    && (!st.Settled() ==>
          && st.deadlineSet && st.retries <= 1
          && (st.cur.Some? ==> st.sockets[st.cur.value].handled == st.sockets[st.cur.value].destroyed)
          && (st.retries == 1 <==> st.cur.None? || st.sockets[st.cur.value].handled))
    && (st.Settled() ==>
          && st.retries == 0
          && (st.results[0] == None ==> forall s :: 0 <= s < |st.sockets| ==> st.sockets[s].destroyed)
          && (st.results[0].Some? ==> st.results[0] == st.cur && st.sockets[st.cur.value] == Socket(true, false)))
  }

  lemma AttemptInv(st: State, late: bool, throws: bool)
    requires !st.Settled() && st.deadlineSet && st.retries == 0
    requires st.attempts <= PUNCH_MAX_ATTEMPTS && |st.sockets| <= st.attempts
    requires (st.cur.Some? <==> |st.sockets| > 0) && (st.cur.Some? ==> st.cur.value == |st.sockets| - 1)
    requires forall s :: 0 <= s < |st.sockets| ==> st.sockets[s] == Socket(true, true)
    ensures var next := Attempt(st, late, throws);
            Inv(next) && (next.attempts > PUNCH_MAX_ATTEMPTS ==> next.Settled())
  {}

  lemma ApplyInv(st: State, e: Event)
    requires Inv(st) && Enabled(st, e) && (!st.Settled() ==> st.attempts <= PUNCH_MAX_ATTEMPTS)
    ensures Inv(Apply(st, e)) && (!Apply(st, e).Settled() ==> Apply(st, e).attempts <= PUNCH_MAX_ATTEMPTS)
  {
    if e.Retry? { AttemptInv(st.(retries := st.retries - 1), e.late, e.throws); }
  }

  ghost predicate Run(states: seq<State>, events: seq<Event>) {
    && |states| == |events| + 1 && (exists late, throws :: states[0] == Attempt(START, late, throws))
    && forall i :: 0 <= i < |events| ==> Enabled(states[i], events[i]) && states[i + 1] == Apply(states[i], events[i])
  }

  lemma {:induction false} RunInv(states: seq<State>, events: seq<Event>, k: nat)
    requires Run(states, events) && k < |states|
    ensures Inv(states[k]) && (!states[k].Settled() ==> states[k].attempts <= PUNCH_MAX_ATTEMPTS)
  {
    if k == 0 {
      var late, throws :| states[0] == Attempt(START, late, throws);
      AttemptInv(START, late, throws);
    } else {
      hide Inv;
      RunInv(states, events, k - 1);
      assert states[k] == Apply(states[k - 1], events[k - 1]);
      ApplyInv(states[k - 1], events[k - 1]);
    }
  }

  function Undestroyed(st: State): set<nat> {
    set s | 0 <= s < |st.sockets| && !st.sockets[s].destroyed
  }

  /** In every ordering: the promise is resolved at most once, at most one socket is undestroyed at a time, at most
      PUNCH_MAX_ATTEMPTS sockets are opened, and a returned socket is not destroyed. */
  lemma PunchIsSafe(states: seq<State>, events: seq<Event>, k: nat)
    requires Run(states, events) && k < |states|
    ensures var st := states[k];
            && |st.results| <= 1 && |st.sockets| <= PUNCH_MAX_ATTEMPTS && |Undestroyed(st)| <= 1
            && (st.Settled() && st.results[0].Some? ==> Undestroyed(st) == {st.results[0].value})
            && (st.Settled() && st.results[0].None? ==> Undestroyed(st) == {})
  {
    RunInv(states, events, k);
    var st := states[k];
    if |st.sockets| > 0 {
      var last := |st.sockets| - 1;
      if st.sockets[last].destroyed { assert Undestroyed(st) == {}; } else { assert Undestroyed(st) == {last}; }
    } else {
      assert Undestroyed(st) == {};
    }
  }

  /** What has been resolved stays, and nothing is opened afterwards. */
  lemma {:induction false} SettledForGood(states: seq<State>, events: seq<Event>, j: nat, k: nat)
    requires Run(states, events) && j <= k < |states| && states[j].Settled()
    ensures states[k].results == states[j].results && |states[k].sockets| == |states[j].sockets|
  {
    if j == k {
    } else {
      SettledForGood(states, events, j, k - 1);
      assert states[k] == Apply(states[k - 1], events[k - 1]) && Enabled(states[k - 1], events[k - 1]);
    }
  }

  /** It does settle: until then the overall timer is set, and when that fires the promise is resolved. */
  lemma DeadlineSettles(states: seq<State>, events: seq<Event>, k: nat)
    requires Run(states, events) && k < |states| && !states[k].Settled()
    ensures Enabled(states[k], Deadline) && Apply(states[k], Deadline).results == [None]
  {
    RunInv(states, events, k);
  }

  /** A connection is lost to no race: while unsettled, the socket that connects first is the one that is returned. */
  lemma ConnectWins(states: seq<State>, events: seq<Event>, k: nat, s: nat)
    requires Run(states, events) && k < |states| && !states[k].Settled()
    requires s < |states[k].sockets| && !states[k].sockets[s].handled
    ensures Apply(states[k], Connect(s)).results == [Some(s)] && states[k].cur == Some(s)
  {
    RunInv(states, events, k);
  }

  /** One failed attempt ends nothing: while unsettled, the failure of the open attempt leaves the promise unresolved
      with one retry pending, and in time below the limit the retry dials again. */
  lemma FailureRetries(states: seq<State>, events: seq<Event>, k: nat, s: nat)
    requires Run(states, events) && k < |states| && !states[k].Settled()
    requires s < |states[k].sockets| && !states[k].sockets[s].handled
    ensures var next := Apply(states[k], Fail(s));
            && next.results == [] && next.retries == 1 && next.sockets[s] == Socket(true, true)
            && (next.attempts < 64 ==>
                  && (var dialled := Apply(next, Retry(false, false));
                      && dialled.results == [] && dialled.retries == 0
                      && dialled.sockets == next.sockets + [Socket(false, false)])
                  && (var thrown := Apply(next, Retry(false, true)); thrown.results == [] && thrown.retries == 1))
  {
    RunInv(states, events, k);
  }

  /** The promise is resolved with null only when time is up, by the overall timer or at a retry past the deadline, or
      at a retry after all 64 attempts. */
  lemma NullExactly(states: seq<State>, events: seq<Event>, k: nat)
    requires Run(states, events) && k < |events| && !states[k].Settled()
    ensures states[k + 1].results == [None]
            <==> || events[k] == Deadline
                 || (events[k].Retry? && (events[k].late || states[k].attempts == 64))
  {
    RunInv(states, events, k);
    assert Enabled(states[k], events[k]) && states[k + 1] == Apply(states[k], events[k]);
  }

  /** And at the first attempt only past the deadline. */
  lemma FirstAttempt(late: bool, throws: bool)
    ensures var st := Attempt(START, late, throws);
            if late then st.results == [None] && st.sockets == []
            else if throws then st.results == [] && st.retries == 1 && st.sockets == []
            else st.results == [] && st.retries == 0 && st.sockets == [Socket(false, false)]
  {}
}
