/** `mapLimit` of lib/Common.js: a few workers share a counter and map a list, keeping the order of the results. */
module MapLimit {
  import opened Wrappers

  /** A worker waits for the call on its index, or is done, or died of a rejection. */
  datatype Worker = Waiting(i: nat) | Done | Dead

  /** The closure state: the shared counter, the workers, the results; and the indices called so far, in order. */
  datatype State<!V> = State(next: nat, workers: seq<Worker>, out: seq<Option<V>>, calls: seq<nat>)

  /** How many workers run: at least one, at most the limit and the length. */
  function WorkerCount(limit: int, len: nat): (n: nat)
    ensures n >= 1 && (n <= limit || n == 1) && (n <= len || n == 1)
  {
    var l := if limit == 0 then 1 else limit;
    var m := if l < (if len == 0 then 1 else len) then l else if len == 0 then 1 else len;
    if m > 1 then m else 1
  }

  /** Worker w takes the next index: `i = next++`. */
  function Take<V>(s: State<V>, w: nat): (t: State<V>)
    requires w < |s.workers|
    ensures |t.workers| == |s.workers| && |t.out| == |s.out|
  {
    if s.next < |s.out| then
      s.(next := s.next + 1, workers := s.workers[w := Waiting(s.next)], calls := s.calls + [s.next])
    else
      s.(next := s.next + 1, workers := s.workers[w := Done])
  }

  /** The first w workers have started. */
  function Started<V>(len: nat, n: nat, w: nat): (s: State<V>)
    requires w <= n
    ensures |s.workers| == n && |s.out| == len
  {
    if w == 0 then State(0, seq(n, i => Done), seq(len, i => None), []) else Take(Started<V>(len, n, w - 1), w - 1)
  }

  /** The call of a worker is fulfilled with a value, or rejected. */
  datatype Event<!V> = Fulfil(w: nat, v: V) | Reject(w: nat)

  predicate Enabled<V>(s: State<V>, e: Event<V>) {
    e.w < |s.workers| && s.workers[e.w].Waiting? && s.workers[e.w].i < |s.out|
  }

  function Apply<V>(s: State<V>, e: Event<V>): (t: State<V>)
    requires Enabled(s, e)
    ensures |t.workers| == |s.workers| && |t.out| == |s.out|
  {
    match e
    case Fulfil(w, v) => Take(s.(out := s.out[s.workers[w].i := Some(v)]), w)
    case Reject(w) => s.(workers := s.workers[w := Dead])
  }

  /** The closure itself. */
  class Mapper<V> {
    var next: nat
    var workers: seq<Worker>
    var out: seq<Option<V>>
    ghost var calls: seq<nat>

    ghost function View(): State<V>
      reads this
    {
      State(next, workers, out, calls)
    }

    /** Starts the workers, each of which runs until it waits for its first call. */
    constructor (len: nat, limit: int)
      ensures View() == Started(len, WorkerCount(limit, len), WorkerCount(limit, len))
    {
      var n := WorkerCount(limit, len);
      next, workers, out, calls := 0, seq(n, i => Done), seq(len, i => None), [];
      new;
      for w := 0 to n
        invariant View() == Started(len, n, w)
      {
        var called := Advance(w);
      }
    }

    /** One turn of a worker's loop head; returns the index to call, if any is left. */
    method Advance(w: nat) returns (call: Option<nat>)
      requires w < |workers|
      modifies this
      ensures View() == Take(old(View()), w)
      ensures call == if old(next) < |old(out)| then Some(old(next)) else None
    {
      var i := next;
      next := next + 1;
      if i < |out| {
        workers, calls := workers[w := Waiting(i)], calls + [i];
        call := Some(i);
      } else {
        workers := workers[w := Done];
        call := None;
      }
    }

    method OnFulfilled(w: nat, v: V) returns (call: Option<nat>)
      requires Enabled(View(), Fulfil(w, v))
      modifies this
      ensures View() == Apply(old(View()), Fulfil(w, v))
    {
      out := out[workers[w].i := Some(v)];
      call := Advance(w);
    }

    method OnRejected(w: nat)
      requires w < |workers| && workers[w].Waiting? && workers[w].i < |out|
      modifies this
      ensures View() == Apply(old(View()), Reject(w))
    {
      workers := workers[w := Dead];
    }
  }

  // ----- every interleaving -----

  ghost predicate Run<V(!new)>(len: nat, limit: int, states: seq<State<V>>, events: seq<Event<V>>) {
    && |states| == |events| + 1 && states[0] == Started(len, WorkerCount(limit, len), WorkerCount(limit, len))
    && forall i :: 0 <= i < |events| ==> Enabled(states[i], events[i]) && states[i + 1] == Apply(states[i], events[i])
  }

  /** The calls are 0, 1, 2, ... without gap or repetition, and each called index is with one worker or has its
      result, unless a worker died of a rejection. */
  ghost predicate Inv<V(!new)>(s: State<V>) {
    && |s.calls| == (if s.next < |s.out| then s.next else |s.out|)
    && (forall i :: 0 <= i < |s.calls| ==> s.calls[i] == i)
    && (forall w :: 0 <= w < |s.workers| && s.workers[w].Waiting? ==>
          s.workers[w].i < |s.calls| && s.out[s.workers[w].i].None?)
    && (forall v, w :: 0 <= v < w < |s.workers| && s.workers[v].Waiting? && s.workers[w].Waiting? ==>
          s.workers[v].i != s.workers[w].i)
    && (forall i :: |s.calls| <= i < |s.out| ==> s.out[i].None?)
    && (NoneDead(s) ==> forall i :: 0 <= i < |s.calls| && s.out[i].None? ==> HasWorker(s, i))
  }

  ghost predicate NoneDead<V(!new)>(s: State<V>) { forall w :: 0 <= w < |s.workers| ==> !s.workers[w].Dead? }

  ghost predicate HasWorker<V(!new)>(s: State<V>, i: nat) {
    exists w :: 0 <= w < |s.workers| && s.workers[w] == Waiting(i)
  }

  /** A worker that holds no index takes the next one. */
  lemma TakeKeepsInv<V(!new)>(s: State<V>, w: nat)
    requires Inv(s) && w < |s.workers| && s.workers[w].Done?
    ensures Inv(Take(s, w)) && (Take(s, w).workers[w].Done? ==> s.next >= |s.out|)
  {
    var t := Take(s, w);
    forall i | 0 <= i < |s.calls| && HasWorker(s, i) ensures HasWorker(t, i) {
      var v :| 0 <= v < |s.workers| && s.workers[v] == Waiting(i);
      assert t.workers[v] == Waiting(i);
    }
    assert s.next < |s.out| ==> t.workers[w] == Waiting(s.next);
    assert NoneDead(t) ==> NoneDead(s) by {
      assert forall v :: 0 <= v < |s.workers| && v != w ==> t.workers[v] == s.workers[v];
    }
  }

  lemma {:induction false} StartedInv<V(!new)>(len: nat, n: nat, w: nat)
    requires w <= n
    ensures Inv(Started<V>(len, n, w)) && forall v :: w <= v < n ==> Started<V>(len, n, w).workers[v].Done?
    ensures NoneDead(Started<V>(len, n, w))
  {
    if w == 0 {
      hide Take;
    } else {
      var s := Started<V>(len, n, w - 1);
      assert Started<V>(len, n, w) == Take(s, w - 1);
      hide Inv, Take, NoneDead, Started;
      StartedInv<V>(len, n, w - 1);
      TakeKeepsInv(s, w - 1);
      TakeTouchesOne(s, w - 1);
    }
  }

  lemma TakeTouchesOne<V(!new)>(s: State<V>, w: nat)
    requires w < |s.workers|
    ensures forall v :: 0 <= v < |s.workers| && v != w ==> Take(s, w).workers[v] == s.workers[v]
    ensures NoneDead(s) ==> NoneDead(Take(s, w))
  {}

  /** Putting a worker's result in its place frees the worker. */
  function Freed<V>(s: State<V>, w: nat, v: V): (t: State<V>)
    requires Enabled(s, Fulfil(w, v))
    ensures |t.workers| == |s.workers| && |t.out| == |s.out|
  {
    s.(out := s.out[s.workers[w].i := Some(v)], workers := s.workers[w := Done])
  }

  lemma FreedInv<V(!new)>(s: State<V>, w: nat, v: V)
    requires Inv(s) && Enabled(s, Fulfil(w, v))
    ensures Inv(Freed(s, w, v)) && Apply(s, Fulfil(w, v)) == Take(Freed(s, w, v), w)
  {
    var t, at := Freed(s, w, v), s.workers[w].i;
    forall i | 0 <= i < |s.calls| && i != at && HasWorker(s, i) ensures HasWorker(t, i) {
      var x :| 0 <= x < |s.workers| && s.workers[x] == Waiting(i);
      assert t.workers[x] == Waiting(i);
    }
    assert NoneDead(t) ==> NoneDead(s) by {
      assert forall x :: 0 <= x < |s.workers| && x != w ==> t.workers[x] == s.workers[x];
    }
    assert t.workers[w := Waiting(s.next)] == s.workers[w := Waiting(s.next)];
  }

  lemma ApplyKeepsInv<V(!new)>(s: State<V>, e: Event<V>)
    requires Inv(s) && Enabled(s, e)
    ensures Inv(Apply(s, e))
  {
    match e
    case Fulfil(w, v) =>
      FreedInv(s, w, v);
      TakeKeepsInv(Freed(s, w, v), w);
    case Reject(w) =>
      assert Apply(s, e).workers[w].Dead?;
  }

  lemma {:induction false} InvOverRun<V(!new)>(len: nat, limit: int,
                                               states: seq<State<V>>, events: seq<Event<V>>, k: nat)
    requires Run(len, limit, states, events) && k < |states|
    ensures Inv(states[k]) && |states[k].workers| == WorkerCount(limit, len) && |states[k].out| == len
  {
    hide Inv;
    if k == 0 {
      StartedInv<V>(len, WorkerCount(limit, len), WorkerCount(limit, len));
    } else {
      InvOverRun(len, limit, states, events, k - 1);
      assert states[k] == Apply(states[k - 1], events[k - 1]);
      ApplyKeepsInv(states[k - 1], events[k - 1]);
    }
  }

  /** In every interleaving fn is called at most once per index, in order, and never by more workers at once than the
      limit allows; and when all workers are done it has been called exactly once per index and every result is in. */
  lemma CalledExactlyOnce<V(!new)>(len: nat, limit: int, states: seq<State<V>>, events: seq<Event<V>>, k: nat)
    requires Run(len, limit, states, events) && k < |states|
    ensures var s := states[k];
            && |s.workers| == WorkerCount(limit, len) && |s.calls| <= len
            && (forall i :: 0 <= i < |s.calls| ==> s.calls[i] == i)
            && ((forall w :: 0 <= w < |s.workers| ==> s.workers[w].Done?)
                ==> |s.calls| == len && |s.out| == len && forall i :: 0 <= i < len ==> s.out[i].Some?)
  {
    InvOverRun(len, limit, states, events, k);
    DoneOverRun(len, limit, states, events, k);
    var s := states[k];
    if forall w :: 0 <= w < |s.workers| ==> s.workers[w].Done? {
      assert s.workers[0].Done? && NoneDead(s);
      forall i | 0 <= i < len ensures s.out[i].Some? {
        assert !HasWorker(s, i);
      }
    }
  }

  /** The limit is used to the full: there are as many workers as the limit and the list allow, at least one, and while
      an index is left and nothing was rejected, each of them waits for a call. */
  lemma AllBusy<V(!new)>(len: nat, limit: int, states: seq<State<V>>, events: seq<Event<V>>, k: nat)
    requires Run(len, limit, states, events) && k < |states| && NoneDead(states[k]) && |states[k].calls| < len
    ensures var wanted := if limit == 0 then 1 else limit;
            |states[k].workers| == if wanted <= 1 then 1 else if wanted < len then wanted else len
    ensures forall w :: 0 <= w < |states[k].workers| ==> states[k].workers[w].Waiting?
  {
    InvOverRun(len, limit, states, events, k);
    DoneOverRun(len, limit, states, events, k);
  }

  /** A worker is done only when no index is left. */
  lemma {:induction false} DoneOverRun<V(!new)>(len: nat, limit: int,
                                                states: seq<State<V>>, events: seq<Event<V>>, k: nat)
    requires Run(len, limit, states, events) && k < |states|
    ensures forall w :: 0 <= w < |states[k].workers| && states[k].workers[w].Done? ==> states[k].next >= |states[k].out|
  {
    if k == 0 {
      StartedDone<V>(len, WorkerCount(limit, len), WorkerCount(limit, len));
    } else {
      DoneOverRun(len, limit, states, events, k - 1);
      assert states[k] == Apply(states[k - 1], events[k - 1]);
    }
  }

  lemma {:induction false} StartedDone<V>(len: nat, n: nat, w: nat)
    requires w <= n
    ensures forall v :: 0 <= v < w && Started<V>(len, n, w).workers[v].Done? ==> Started<V>(len, n, w).next >= len
  {
    if w > 0 { StartedDone<V>(len, n, w - 1); }
  }

  /** Results keep their places: whatever is fulfilled for the call on index i is the result of index i, to the end. */
  lemma {:induction false} ResultsKeepOrder<V(!new)>(len: nat, limit: int,
                                                     states: seq<State<V>>, events: seq<Event<V>>, j: nat, k: nat)
    requires Run(len, limit, states, events) && j < k < |states| && events[j].Fulfil?
    ensures var i := states[j].workers[events[j].w].i;
            i < |states[k].out| && states[k].out[i] == Some(events[j].v)
    decreases k
  {
    assert Enabled(states[j], events[j]);
    assert states[k] == Apply(states[k - 1], events[k - 1]) && Enabled(states[k - 1], events[k - 1]);
    if j == k - 1 {
    } else {
      ResultsKeepOrder(len, limit, states, events, j, k - 1);
      InvOverRun(len, limit, states, events, k - 1);
    }
  }
}
