/** The alert hysteresis of lib/Fleet.js (`detectTransitions`): a node's status change is reported once it has lasted
    SUSTAIN_POLLS polls. */
module Fleet {
  import opened Wrappers

  const SUSTAIN_POLLS: nat := 2

  type Status = string

  /** What is remembered of a node: the durable status, and the status that may replace it with its run length. */
  datatype Monitor = Monitor(current: Status, pending: Option<Status>, count: nat)

  datatype Change = Change(from: Status, to: Status)

  /** One observation of one node. */
  function Observe(m: Option<Monitor>, s: Status): (Monitor, Option<Change>) {
    if m.None? then (Monitor(s, None, 0), None)
    else
      var was := m.value;
      if s == was.current then (Monitor(was.current, None, 0), None)
      else
        var count := if Some(s) == was.pending then was.count + 1 else 1;
        if count >= SUSTAIN_POLLS then (Monitor(s, None, 0), Some(Change(was.current, s)))
        else (Monitor(was.current, Some(s), count), None)
  }

  // ----- one poll of the whole fleet -----

  datatype Node = Node(id: string, status: Status)
  datatype Transition = Transition(id: string, change: Change)

  type Machine = map<string, Monitor>

  function At(machine: Machine, id: string): Option<Monitor> {
    if id in machine then Some(machine[id]) else None
  }

  /** The machine and the transitions after the nodes of the list. */
  function Sweep(machine: Machine, list: seq<Node>): (Machine, seq<Transition>) {
    if list == [] then (machine, [])
    else
      var (before, out) := Sweep(machine, list[..|list| - 1]);
      var n := list[|list| - 1];
      var (m, change) := Observe(At(before, n.id), n.status);
      (before[n.id := m], if change.Some? then out + [Transition(n.id, change.value)] else out)
  }

  predicate Enrolled(list: seq<Node>, id: string) { exists i :: 0 <= i < |list| && list[i].id == id }

  /** The machine without the nodes that are gone. */
  function Pruned(machine: Machine, list: seq<Node>): Machine {
    map id | id in machine && Enrolled(list, id) :: machine[id]
  }

  class Alerts {
    var machine: Machine

    constructor ()
      ensures machine == map[]
    {
      machine := map[];
    }

    /** `detectTransitions`, on the nodes and their effective statuses. */
    method DetectTransitions(list: seq<Node>) returns (out: seq<Transition>)
      modifies this
      ensures out == Sweep(old(machine), list).1
      ensures machine == Pruned(Sweep(old(machine), list).0, list)
    {
      out := [];
      for i := 0 to |list|
        invariant (machine, out) == Sweep(old(machine), list[..i])
      {
        assert list[..i + 1][..i] == list[..i];
        var n := list[i];
        if n.id !in machine {
          machine := machine[n.id := Monitor(n.status, None, 0)];
          continue;
        }
        var m := machine[n.id];
        if n.status == m.current {
          machine := machine[n.id := m.(pending := None, count := 0)];
          continue;
        }
        if Some(n.status) == m.pending {
          m := m.(count := m.count + 1);
        } else {
          m := m.(pending := Some(n.status), count := 1);
        }
        if m.count >= SUSTAIN_POLLS {
          out := out + [Transition(n.id, Change(m.current, n.status))];
          m := Monitor(n.status, None, 0);
        }
        machine := machine[n.id := m];
      }
      assert list[..|list|] == list;
      machine := Pruned(machine, list);
    }
  }

  predicate Distinct(list: seq<Node>) { forall i, j :: 0 <= i < j < |list| ==> list[i].id != list[j].id }

  /** In a poll of distinct nodes each node's machine sees exactly its own observation, and a transition is reported
      exactly for the nodes whose observation makes a change. */
  lemma {:induction false} SweepIsPerNode(machine: Machine, list: seq<Node>, i: nat)
    requires Distinct(list) && i < |list|
    ensures var n := list[i]; var (m, change) := Observe(At(machine, n.id), n.status);
            && At(Sweep(machine, list).0, n.id) == Some(m)
            && forall c :: Transition(n.id, c) in Sweep(machine, list).1 <==> change == Some(c)
  {
    var front, n := list[..|list| - 1], list[|list| - 1];
    SweepLeavesOthers(machine, front, n.id);
    if i == |front| {
    } else {
      SweepIsPerNode(machine, front, i);
      assert front[i] == list[i] && list[i].id != n.id;
    }
  }

  lemma {:induction false} SweepLeavesOthers(machine: Machine, list: seq<Node>, id: string)
    requires !Enrolled(list, id) || (forall i :: 0 <= i < |list| ==> list[i].id != id)
    ensures At(Sweep(machine, list).0, id) == At(machine, id)
    ensures forall c :: Transition(id, c) !in Sweep(machine, list).1
  {
    if list == [] {
    } else {
      var front := list[..|list| - 1];
      assert forall i :: 0 <= i < |front| ==> front[i] == list[i];
      SweepLeavesOthers(machine, front, id);
      assert list[|list| - 1].id != id;
    }
  }

  // ----- a node over time -----

  /** The machine of a continuously enrolled node after its observations. */
  function After(obs: seq<Status>): Option<Monitor> {
    if obs == [] then None else Some(Observe(After(obs[..|obs| - 1]), obs[|obs| - 1]).0)
  }

  /** What the poll of the last observation reports. */
  function Report(obs: seq<Status>): Option<Change>
    requires obs != []
  {
    Observe(After(obs[..|obs| - 1]), obs[|obs| - 1]).1
  }

  /** How many of the last observations are all the same. */
  function Trailing(obs: seq<Status>): nat {
    if obs == [] then 0
    else if |obs| >= 2 && obs[|obs| - 2] == obs[|obs| - 1] then Trailing(obs[..|obs| - 1]) + 1
    else 1
  }

  lemma {:induction false} MonitorMeaning(obs: seq<Status>)
    requires obs != []
    ensures var m, last := After(obs).value, obs[|obs| - 1];
            if last == m.current then m.pending == None && m.count == 0
            else m.pending == Some(last) && m.count == Trailing(obs) < SUSTAIN_POLLS
  {
    if |obs| == 1 {
    } else {
      var front := obs[..|obs| - 1];
      MonitorMeaning(front);
      assert front[|front| - 1] == obs[|obs| - 2];
    }
  }

  /** The last n observations are all s. */
  predicate LastAll(obs: seq<Status>, n: nat, s: Status) {
    n <= |obs| && forall i :: |obs| - n <= i < |obs| ==> obs[i] == s
  }

  lemma {:induction false} TrailingMeans(obs: seq<Status>, n: nat)
    requires obs != []
    ensures n <= Trailing(obs) <==> LastAll(obs, n, obs[|obs| - 1])
  {
    if |obs| < 2 {
    } else {
      var front := obs[..|obs| - 1];
      if n >= 1 { TrailingMeans(front, n - 1); }
      assert front[|front| - 1] == obs[|obs| - 2];
      if n >= 2 && n <= |obs| && obs[|obs| - 2] == obs[|obs| - 1] {
        assert LastAll(front, n - 1, front[|front| - 1]) <==> LastAll(obs, n, obs[|obs| - 1]);
      }
    }
  }

  /** The durable status: that of the latest SUSTAIN_POLLS observations in a row that agreed, or the first one. */
  function Durable(obs: seq<Status>): Status
    requires obs != []
  {
    if |obs| == 1 || LastAll(obs, SUSTAIN_POLLS, obs[|obs| - 1]) then obs[|obs| - 1] else Durable(obs[..|obs| - 1])
  }

  /** What a node's machine makes of its observations, said without the machine. */
  lemma {:induction false} MachineMeaning(obs: seq<Status>)
    requires obs != []
    ensures After(obs).value.current == Durable(obs)
    ensures var front, last := obs[..|obs| - 1], obs[|obs| - 1];
            Report(obs) == if front != [] && LastAll(obs, SUSTAIN_POLLS, last) && last != Durable(front)
                           then Some(Change(Durable(front), last)) else None
  {
    hide LastAll;
    TrailingMeans(obs, SUSTAIN_POLLS);
    if |obs| == 1 {
    } else {
      var front := obs[..|obs| - 1];
      MachineMeaning(front);
      MonitorMeaning(front);
      assert front[|front| - 1] == obs[|obs| - 2];
    }
  }

  // ----- successive polls -----

  function MachineAfter(polls: seq<seq<Node>>): Machine {
    if polls == [] then map[]
    else Pruned(Sweep(MachineAfter(polls[..|polls| - 1]), polls[|polls| - 1]).0, polls[|polls| - 1])
  }

  /** What the last poll reports. */
  function Transitions(polls: seq<seq<Node>>): seq<Transition>
    requires polls != []
  {
    Sweep(MachineAfter(polls[..|polls| - 1]), polls[|polls| - 1]).1
  }

  function StatusOf(list: seq<Node>, id: string): Status
    requires Enrolled(list, id)
  {
    if list[|list| - 1].id == id then list[|list| - 1].status else StatusOf(list[..|list| - 1], id)
  }

  function Observed(polls: seq<seq<Node>>, id: string): (obs: seq<Status>)
    requires forall i :: 0 <= i < |polls| ==> Enrolled(polls[i], id)
    ensures |obs| == |polls|
  {
    seq(|polls|, i requires 0 <= i < |polls| => StatusOf(polls[i], id))
  }

  /** A history of polls of distinct nodes, in whose second part the node is enrolled throughout, having been absent
      just before: enrolled for the first time, or anew. */
  predicate EnrolledSince(before: seq<seq<Node>>, during: seq<seq<Node>>, id: string) {
    && (forall i :: 0 <= i < |during| ==> Distinct(during[i]) && Enrolled(during[i], id))
    && (before == [] || !Enrolled(before[|before| - 1], id))
  }

  lemma {:induction false} StatusIsAt(list: seq<Node>, id: string) returns (i: nat)
    requires Enrolled(list, id)
    ensures i < |list| && list[i] == Node(id, StatusOf(list, id))
  {
    if list[|list| - 1].id == id {
      i := |list| - 1;
    } else {
      i := StatusIsAt(list[..|list| - 1], id);
    }
  }

  /** Over successive polls, with the pruning in between, the machine of an enrolled node is the one that its own
      observations alone make, and the last poll reports of it what the last observation does. */
  lemma {:induction false} PollsArePerNode(before: seq<seq<Node>>, during: seq<seq<Node>>, id: string)
    requires EnrolledSince(before, during, id)
    ensures At(MachineAfter(before + during), id) == After(Observed(during, id))
    ensures during != [] ==> forall c :: Transition(id, c) in Transitions(before + during)
                                         <==> Report(Observed(during, id)) == Some(c)
    decreases |during|
  {
    hide Observe, Enrolled, Sweep, StatusOf, Distinct;
    if during == [] {
      assert before + during == before;
    } else {
      var polls, front, list := before + during, during[..|during| - 1], during[|during| - 1];
      assert polls[..|polls| - 1] == before + front && polls[|polls| - 1] == list;
      PollsArePerNode(before, front, id);
      var i := StatusIsAt(list, id);
      SweepIsPerNode(MachineAfter(before + front), list, i);
      assert Observed(during, id)[..|front|] == Observed(front, id);
    }
  }

  /** A poll reports a change of a node exactly when the node's last SUSTAIN_POLLS observations since it was enrolled
      are all alike and differ from the durable status so far; the first observation reports nothing. */
  lemma ReportedExactly(before: seq<seq<Node>>, during: seq<seq<Node>>, id: string, c: Change)
    requires EnrolledSince(before, during, id) && during != []
    ensures var obs := Observed(during, id);
            Transition(id, c) in Transitions(before + during)
            <==> && |obs| > 1 && LastAll(obs, SUSTAIN_POLLS, c.to)
                 && c.from == Durable(obs[..|obs| - 1]) && c.from != c.to
  {
    hide Observed, Transitions, Durable, Report, MachineAfter, Distinct, Enrolled;
    PollsArePerNode(before, during, id);
    MachineMeaning(Observed(during, id));
  }

  /** All changes reported over the observations. */
  function Changes(obs: seq<Status>): seq<Change> {
    if obs == [] then []
    else
      var before := Changes(obs[..|obs| - 1]);
      if Report(obs).Some? then before + [Report(obs).value] else before
  }

  /** The reported changes chain end to end, from the first observation to the durable status. */
  lemma {:induction false} ChangesChain(obs: seq<Status>)
    requires obs != []
    ensures var c := Changes(obs);
            && (c == [] ==> Durable(obs) == obs[0])
            && (c != [] ==> c[0].from == obs[0] && c[|c| - 1].to == Durable(obs))
            && (forall i :: 0 <= i < |c| ==> c[i].from != c[i].to)
            && (forall i :: 0 < i < |c| ==> c[i - 1].to == c[i].from)
  {
    MachineMeaning(obs);
    if |obs| > 1 {
      MachineMeaning(obs[..|obs| - 1]);
      ChangesChain(obs[..|obs| - 1]);
    } else {
      assert Changes(obs[..0]) == [];
    }
  }
}
