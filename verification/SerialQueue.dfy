/** The per-key serial queues of lib/Common.js (`serialQueue`, `serialQueueByKey`): tasks of one key run one at a time
    in order of arrival, and a key's queue is evicted once nothing of it is pending. */
module SerialQueue {
  type Key = string
  type Task = nat

  // ----- the promise chain of one queue -----

  datatype Promise = Unsettled | Fulfilled | Rejected

  /** A task on the chain: whether its function has been called, and `result`, the promise of `chain.then(fn, fn)`. */
  datatype Job = Job(called: bool, result: Promise)

  const NEW_JOB: Job := Job(false, Unsettled)

  /** `result.then(() => {}, () => {})` */
  function Kept(result: Promise): Promise { if result == Unsettled then Unsettled else Fulfilled }

  /** The chain as job j finds it. */
  function Chain(jobs: seq<Job>, j: nat): Promise
    requires j <= |jobs|
  {
    if j == 0 then Fulfilled else Kept(jobs[j - 1].result)
  }

  /** `then` calls its function, which is the same for either outcome, once the chain is settled. */
  predicate MayCall(jobs: seq<Job>, j: nat) { j < |jobs| && !jobs[j].called && Chain(jobs, j) != Unsettled }

  predicate MaySettle(jobs: seq<Job>, j: nat) { j < |jobs| && jobs[j].called && jobs[j].result == Unsettled }

  function Called(jobs: seq<Job>, j: nat): (r: seq<Job>)
    requires j < |jobs|
    ensures |r| == |jobs|
  {
    jobs[j := jobs[j].(called := true)]
  }

  function Settled(jobs: seq<Job>, j: nat, ok: bool): (r: seq<Job>)
    requires j < |jobs|
    ensures |r| == |jobs|
  {
    jobs[j := jobs[j].(result := if ok then Fulfilled else Rejected)]
  }

  /** The first `begun` jobs have been called and the first `finished` of them are settled. */
  predicate InStep(jobs: seq<Job>, begun: nat, finished: nat) {
    && finished <= begun <= finished + 1 && begun <= |jobs|
    && (forall i :: 0 <= i < |jobs| ==> (jobs[i].called <==> i < begun))
    && forall i :: 0 <= i < |jobs| ==> (jobs[i].result != Unsettled <==> i < finished)
  }

  /** The chain calls one function at a time and in order, and goes on after a rejection as after a fulfilment. */
  lemma ChainIsSerial(jobs: seq<Job>, begun: nat, finished: nat, j: nat)
    requires InStep(jobs, begun, finished)
    ensures MayCall(jobs, j) <==> j == begun == finished < |jobs|
    ensures MayCall(jobs, j) ==> InStep(Called(jobs, j), begun + 1, finished)
    ensures MaySettle(jobs, j) <==> j == finished < begun
    ensures MaySettle(jobs, j) ==> forall ok :: InStep(Settled(jobs, j, ok), begun, finished + 1)
    ensures InStep(jobs + [NEW_JOB], begun, finished)
  {
    assert forall i :: 0 <= i < |jobs| ==> (jobs + [NEW_JOB])[i] == jobs[i];
  }

  // ----- queues and keys -----

  /** One queue: the tasks put on its chain, and how many of them have begun, have finished, and have been accounted
      for by `settle`. */
  datatype Entry = Entry(key: Key, tasks: seq<Task>, jobs: seq<Job>, begun: nat, finished: nat, settled: nat) {
    function Pending(): int { |tasks| - settled }
  }

  /** What happened to the tasks of one key: those that arrived, began and finished, each in order, and how many have
      been accounted for. */
  datatype Log = Log(arrived: seq<Task>, begun: seq<Task>, finished: seq<Task>, settled: nat)

  /** All queues ever made, the map from keys to the live ones, and the logs. */
  datatype State = State(entries: seq<Entry>, queues: map<Key, nat>, logs: map<Key, Log>)

  function LogOf(s: State, key: Key): Log { if key in s.logs then s.logs[key] else Log([], [], [], 0) }

  datatype Event =
    | Run(key: Key, task: Task)         // a task of the key arrives
    | Begin(e: nat, j: nat)             // the chain of queue e calls its j-th task
    | Finish(e: nat, j: nat, ok: bool)  // that task is fulfilled or rejected
    | Settle(e: nat)                    // `settle` runs for another finished task of queue e

  predicate Enabled(s: State, ev: Event) {
    match ev
    case Run(key, _) => key in s.queues ==> s.queues[key] < |s.entries|
    case Begin(e, j) => e < |s.entries| && j < |s.entries[e].tasks| && MayCall(s.entries[e].jobs, j)
    case Finish(e, j, _) => e < |s.entries| && j < |s.entries[e].tasks| && MaySettle(s.entries[e].jobs, j)
    case Settle(e) => e < |s.entries| && s.entries[e].settled < s.entries[e].finished
  }

  function NewEntry(key: Key): Entry { Entry(key, [], [], 0, 0, 0) }

  function Put(q: Entry, task: Task): Entry { q.(tasks := q.tasks + [task], jobs := q.jobs + [NEW_JOB]) }

  function Apply(s: State, ev: Event): State
    requires Enabled(s, ev)
  {
    match ev
    case Run(key, task) =>
      var log := LogOf(s, key);
      var logs := s.logs[key := log.(arrived := log.arrived + [task])];
      if key in s.queues then
        State(s.entries[s.queues[key] := Put(s.entries[s.queues[key]], task)], s.queues, logs)
      else
        State(s.entries + [Put(NewEntry(key), task)], s.queues[key := |s.entries|], logs)
    case Begin(e, j) =>
      var q := s.entries[e];
      var log := LogOf(s, q.key);
      State(s.entries[e := q.(jobs := Called(q.jobs, j), begun := q.begun + 1)], s.queues,
            s.logs[q.key := log.(begun := log.begun + [q.tasks[j]])])
    case Finish(e, j, ok) =>
      var q := s.entries[e];
      var log := LogOf(s, q.key);
      State(s.entries[e := q.(jobs := Settled(q.jobs, j, ok), finished := q.finished + 1)], s.queues,
            s.logs[q.key := log.(finished := log.finished + [q.tasks[j]])])
    case Settle(e) =>
      var q := s.entries[e].(settled := s.entries[e].settled + 1);
      var log := LogOf(s, q.key);
      State(s.entries[e := q],
            if q.Pending() == 0 && q.key in s.queues && s.queues[q.key] == e then s.queues - {q.key} else s.queues,
            s.logs[q.key := log.(settled := log.settled + 1)])
  }

  class SerialQueueByKey {
    var entries: seq<Entry>
    var queues: map<Key, nat>
    ghost var logs: map<Key, Log>

    ghost function View(): State
      reads this
    {
      State(entries, queues, logs)
    }

    constructor ()
      ensures View() == State([], map[], map[])
    {
      entries, queues, logs := [], map[], map[];
    }

    /** `run(key, fn)`, up to putting the task on the chain of the key's queue, a new one if there is none. */
    method Enqueue(key: Key, task: Task) returns (e: nat)
      requires Enabled(View(), Run(key, task))
      modifies this
      ensures View() == Apply(old(View()), Run(key, task))
      ensures key in queues && queues[key] == e
    {
      if key in queues {
        e := queues[key];
      } else {
        e := |entries|;
        entries := entries + [NewEntry(key)];
        queues := queues[key := e];
      }
      entries := entries[e := Put(entries[e], task)];
      ghost var log := LogOf(View(), key);
      logs := logs[key := log.(arrived := log.arrived + [task])];
      assert old(key !in queues) ==> entries == old(entries) + [Put(NewEntry(key), task)];
    }

    /** The chain calls a task. */
    method Start(e: nat, j: nat) returns (task: Task)
      requires Enabled(View(), Begin(e, j))
      modifies this
      ensures View() == Apply(old(View()), Begin(e, j)) && task == old(entries)[e].tasks[j]
    {
      var q := entries[e];
      task := q.tasks[j];
      entries := entries[e := q.(jobs := Called(q.jobs, j), begun := q.begun + 1)];
      ghost var log := LogOf(View(), q.key);
      logs := logs[q.key := log.(begun := log.begun + [task])];
    }

    /** The running task is fulfilled or rejected. */
    method End(e: nat, j: nat, ok: bool)
      requires Enabled(View(), Finish(e, j, ok))
      modifies this
      ensures View() == Apply(old(View()), Finish(e, j, ok))
    {
      var q := entries[e];
      entries := entries[e := q.(jobs := Settled(q.jobs, j, ok), finished := q.finished + 1)];
      ghost var log := LogOf(View(), q.key);
      logs := logs[q.key := log.(finished := log.finished + [q.tasks[j]])];
    }

    /** `settle`: the queue removes itself from the map when nothing is pending. */
    method Account(e: nat)
      requires Enabled(View(), Settle(e))
      modifies this
      ensures View() == Apply(old(View()), Settle(e))
    {
      var q := entries[e].(settled := entries[e].settled + 1);
      entries := entries[e := q];
      ghost var log := LogOf(View(), q.key);
      logs := logs[q.key := log.(settled := log.settled + 1)];
      if q.Pending() == 0 && q.key in queues && queues[q.key] == e {
        queues := queues - {q.key};
      }
    }
  }

  // ----- invariant -----

  predicate Ordered(q: Entry) {
    q.settled <= q.finished && |q.jobs| == |q.tasks| && InStep(q.jobs, q.begun, q.finished)
  }

  predicate IsLive(s: State, e: nat)
    requires e < |s.entries|
  {
    s.entries[e].key in s.queues && s.queues[s.entries[e].key] == e
  }

  /** The log of a key whose live queue is q: what is on the queue are the last arrivals, and everything before them
      is over. */
  predicate LogMatches(log: Log, q: Entry) {
    && |q.tasks| <= |log.arrived| && Ordered(q)
    && var base := |log.arrived| - |q.tasks|;
       && log.arrived[base..] == q.tasks
       && log.begun == log.arrived[..base + q.begun] && log.finished == log.arrived[..base + q.finished]
       && log.settled == base + q.settled
  }

  predicate LogComplete(log: Log) {
    log.begun == log.arrived && log.finished == log.arrived && log.settled == |log.arrived|
  }

  predicate KeyInv(s: State, k: Key) {
    if k in s.queues then
      && s.queues[k] < |s.entries|
      && var q := s.entries[s.queues[k]]; q.key == k && q.Pending() > 0 && LogMatches(LogOf(s, k), q)
    else LogComplete(LogOf(s, k))
  }

  predicate EntryInv(s: State, e: nat)
    requires e < |s.entries|
  {
    Ordered(s.entries[e]) && (!IsLive(s, e) ==> s.entries[e].Pending() == 0)
  }

  ghost predicate Inv(s: State) {
    (forall k: Key :: KeyInv(s, k)) && forall e :: 0 <= e < |s.entries| ==> EntryInv(s, e)
  }

  /** Only the live queue of a key can make a step. */
  lemma EnabledIsLive(s: State, ev: Event)
    requires Inv(s) && Enabled(s, ev) && !ev.Run?
    ensures IsLive(s, ev.e)
  {
    assert EntryInv(s, ev.e);
  }

  lemma ArriveStep(log: Log, q: Entry, task: Task)
    requires LogMatches(log, q)
    ensures LogMatches(log.(arrived := log.arrived + [task]), Put(q, task))
  {
    ChainIsSerial(q.jobs, q.begun, q.finished, 0);
    hide InStep;
    var base := |log.arrived| - |q.tasks|;
    assert (log.arrived + [task])[base..] == log.arrived[base..] + [task];
  }

  lemma FirstArrival(log: Log, key: Key, task: Task)
    requires LogComplete(log)
    ensures LogMatches(log.(arrived := log.arrived + [task]), Put(NewEntry(key), task))
  {
    assert [] + [task] == [task] && [] + [NEW_JOB] == [NEW_JOB];
  }

  lemma BeginStep(log: Log, q: Entry, j: nat)
    requires LogMatches(log, q) && MayCall(q.jobs, j)
    ensures j < |q.tasks|
    ensures LogMatches(log.(begun := log.begun + [q.tasks[j]]), q.(jobs := Called(q.jobs, j), begun := q.begun + 1))
  {
    ChainIsSerial(q.jobs, q.begun, q.finished, j);
    hide InStep, Called;
    NextPrefix(log.arrived, q.tasks, j);
  }

  lemma FinishStep(log: Log, q: Entry, j: nat, ok: bool)
    requires LogMatches(log, q) && MaySettle(q.jobs, j)
    ensures j < |q.tasks|
    ensures LogMatches(log.(finished := log.finished + [q.tasks[j]]),
                       q.(jobs := Settled(q.jobs, j, ok), finished := q.finished + 1))
  {
    ChainIsSerial(q.jobs, q.begun, q.finished, j);
    hide InStep, Settled;
    NextPrefix(log.arrived, q.tasks, j);
  }

  lemma NextPrefix(arrived: seq<Task>, tasks: seq<Task>, i: nat)
    requires |tasks| <= |arrived| && arrived[|arrived| - |tasks|..] == tasks && i < |tasks|
    ensures var base := |arrived| - |tasks|; arrived[..base + i] + [tasks[i]] == arrived[..base + i + 1]
  {
    var base := |arrived| - |tasks|;
    assert tasks[i] == arrived[base..][i];
  }

  lemma SettleStep(log: Log, q: Entry)
    requires LogMatches(log, q) && q.settled < q.finished
    ensures var l, r := log.(settled := log.settled + 1), q.(settled := q.settled + 1);
            LogMatches(l, r) && (r.Pending() == 0 ==> LogComplete(l))
  {
    assert log.arrived[..|log.arrived|] == log.arrived;
  }

  /** A live queue and its log change together; when nothing is pending any more the queue leaves the map. */
  lemma LiveStep(s: State, e: nat, q: Entry, log: Log, t: State)
    requires Inv(s) && e < |s.entries| && IsLive(s, e) && q.key == s.entries[e].key
    requires LogMatches(log, q) && (q.Pending() == 0 ==> LogComplete(log))
    requires var queues := if q.Pending() == 0 then s.queues - {q.key} else s.queues;
             t == State(s.entries[e := q], queues, s.logs[q.key := log])
    ensures Inv(t)
  {
    hide LogComplete;
    assert Ordered(q) && q.Pending() >= 0;
    forall k: Key ensures KeyInv(t, k) { assert KeyInv(s, k) && KeyInv(s, q.key); }
    forall i | 0 <= i < |t.entries| ensures EntryInv(t, i) { assert EntryInv(s, i); }
  }

  lemma NewQueue(s: State, key: Key, task: Task)
    requires Inv(s) && key !in s.queues
    ensures Inv(Apply(s, Run(key, task)))
  {
    hide LogMatches, LogComplete, Ordered, KeyInv;
    var q, t := Put(NewEntry(key), task), Apply(s, Run(key, task));
    forall k: Key ensures KeyInv(t, k) {
      assert KeyInv(s, k) && KeyInv(s, key);
      NewQueueKey(s, key, task, k);
    }
    assert Ordered(q) by { NewIsOrdered(key, task); }
    forall i | 0 <= i < |t.entries| ensures EntryInv(t, i) {
      if i < |s.entries| {
        assert EntryInv(s, i) && t.entries[i] == s.entries[i];
      } else {
        assert t.entries[i] == q;
      }
    }
  }

  lemma NewIsOrdered(key: Key, task: Task)
    ensures Ordered(Put(NewEntry(key), task))
  {}

  lemma NewQueueKey(s: State, key: Key, task: Task, k: Key)
    requires KeyInv(s, k) && KeyInv(s, key) && key !in s.queues
    ensures KeyInv(Apply(s, Run(key, task)), k)
  {
    hide LogMatches, LogComplete;
    var q, log := Put(NewEntry(key), task), LogOf(s, key);
    FirstArrival(log, key, task);
    var t := Apply(s, Run(key, task));
    assert t.entries == s.entries + [q] && t.queues == s.queues[key := |s.entries|];
    if k == key {
      assert LogOf(t, key) == log.(arrived := log.arrived + [task]);
    } else {
      assert LogOf(t, k) == LogOf(s, k);
    }
  }

  lemma LiveMatches(s: State, e: nat)
    requires Inv(s) && e < |s.entries| && IsLive(s, e)
    ensures LogMatches(LogOf(s, s.entries[e].key), s.entries[e])
  {
    assert KeyInv(s, s.entries[e].key);
  }

  lemma RunKeepsInv(s: State, key: Key, task: Task)
    requires Inv(s) && key in s.queues
    ensures Enabled(s, Run(key, task)) && Inv(Apply(s, Run(key, task)))
  {
    assert KeyInv(s, key);
    hide Inv, LogMatches, LogComplete, Put;
    var e, t := s.queues[key], Apply(s, Run(key, task));
    LiveMatches(s, e);
    ArriveStep(LogOf(s, key), s.entries[e], task);
    PutIsPending(s.entries[e], task);
    LiveStep(s, e, t.entries[e], t.logs[key], t);
  }

  lemma PutIsPending(q: Entry, task: Task)
    requires q.Pending() > 0
    ensures Put(q, task).Pending() > 0 && Put(q, task).key == q.key
  {}

  lemma BeginKeepsInv(s: State, e: nat, j: nat)
    requires Inv(s) && Enabled(s, Begin(e, j))
    ensures Inv(Apply(s, Begin(e, j)))
  {
    EnabledIsLive(s, Begin(e, j));
    assert KeyInv(s, s.entries[e].key);
    hide Inv, LogMatches, LogComplete, MayCall, Called;
    var t := Apply(s, Begin(e, j));
    LiveMatches(s, e);
    BeginStep(LogOf(s, s.entries[e].key), s.entries[e], j);
    LiveStep(s, e, t.entries[e], t.logs[s.entries[e].key], t);
  }

  lemma FinishKeepsInv(s: State, e: nat, j: nat, ok: bool)
    requires Inv(s) && Enabled(s, Finish(e, j, ok))
    ensures Inv(Apply(s, Finish(e, j, ok)))
  {
    EnabledIsLive(s, Finish(e, j, ok));
    assert KeyInv(s, s.entries[e].key);
    hide Inv, LogMatches, LogComplete, MaySettle, Settled;
    var t := Apply(s, Finish(e, j, ok));
    LiveMatches(s, e);
    FinishStep(LogOf(s, s.entries[e].key), s.entries[e], j, ok);
    LiveStep(s, e, t.entries[e], t.logs[s.entries[e].key], t);
  }

  lemma SettleKeepsInv(s: State, e: nat)
    requires Inv(s) && Enabled(s, Settle(e))
    ensures Inv(Apply(s, Settle(e)))
  {
    EnabledIsLive(s, Settle(e));
    hide Inv, LogMatches, LogComplete;
    var t := Apply(s, Settle(e));
    LiveMatches(s, e);
    SettleStep(LogOf(s, s.entries[e].key), s.entries[e]);
    LiveStep(s, e, t.entries[e], t.logs[s.entries[e].key], t);
  }

  lemma ApplyKeepsInv(s: State, ev: Event)
    requires Inv(s) && Enabled(s, ev)
    ensures Inv(Apply(s, ev))
  {
    hide Inv, Enabled, Apply;
    match ev {
      case Run(key, task) => if key in s.queues { RunKeepsInv(s, key, task); } else { NewQueue(s, key, task); }
      case Begin(e, j) => BeginKeepsInv(s, e, j);
      case Finish(e, j, ok) => FinishKeepsInv(s, e, j, ok);
      case Settle(e) => SettleKeepsInv(s, e);
    }
  }

  // ----- every interleaving -----

  ghost predicate History(states: seq<State>, events: seq<Event>) {
    && |states| == |events| + 1 && states[0] == State([], map[], map[])
    && forall i :: 0 <= i < |events| ==> Enabled(states[i], events[i]) && states[i + 1] == Apply(states[i], events[i])
  }

  lemma {:induction false} InvOverHistory(states: seq<State>, events: seq<Event>, k: nat)
    requires History(states, events) && k < |states|
    ensures Inv(states[k])
  {
    if k == 0 {
    } else {
      hide Inv, Apply, Enabled;
      InvOverHistory(states, events, k - 1);
      assert states[k] == Apply(states[k - 1], events[k - 1]);
      ApplyKeepsInv(states[k - 1], events[k - 1]);
    }
  }

  /** Tasks of one key begin in order of arrival, each once, and only after the one before has finished; the map holds
      exactly the keys with tasks that are not accounted for; and no key has two queues with pending tasks. */
  lemma OneAtATimeInOrder(states: seq<State>, events: seq<Event>, k: nat, key: Key)
    requires History(states, events) && k < |states|
    ensures var s := states[k]; var log := LogOf(s, key);
            && log.begun <= log.arrived && log.finished <= log.begun && |log.begun| <= |log.finished| + 1
            && (key in s.queues <==> log.settled < |log.arrived|)
            && forall e, f :: 0 <= e < f < |s.entries| && s.entries[e].key == s.entries[f].key == key
                 ==> s.entries[e].Pending() == 0 || s.entries[f].Pending() == 0
  {
    InvOverHistory(states, events, k);
    var s := states[k];
    assert KeyInv(s, key);
    forall e, f | 0 <= e < f < |s.entries| && s.entries[e].key == s.entries[f].key == key
      ensures s.entries[e].Pending() == 0 || s.entries[f].Pending() == 0
    {
      assert EntryInv(s, e) && EntryInv(s, f);
    }
  }

  /** A key's next task is not held up for ever: while tasks are pending its queue can always make a step, whatever the
      outcomes before and whatever the outcome of the running task. */
  lemma QueueProgresses(states: seq<State>, events: seq<Event>, k: nat, key: Key)
    requires History(states, events) && k < |states| && key in states[k].queues
    ensures var e, s := states[k].queues[key], states[k];
            && e < |s.entries|
            && (|| Enabled(s, Begin(e, s.entries[e].begun))
                || (forall ok :: Enabled(s, Finish(e, s.entries[e].finished, ok)))
                || Enabled(s, Settle(e)))
  {
    InvOverHistory(states, events, k);
    assert KeyInv(states[k], key);
    var q := states[k].entries[states[k].queues[key]];
    ChainIsSerial(q.jobs, q.begun, q.finished, q.begun);
    ChainIsSerial(q.jobs, q.begun, q.finished, q.finished);
  }
}
