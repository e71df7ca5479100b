/** The cross-process lock file of lib/FileLock.js as a protocol: any number of processes on any number of hosts that
    share one clock and one lock file, and that start, crash, acquire, beat, release and reclaim in any order. */
module FileLock {
  const TTL_MS: nat := 30000
  const BIRTH_MS: nat := 3000

  /** A process; operating systems reuse pids, so two processes of a host may have the same. */
  datatype Process = Process(id: nat, host: nat, pid: nat)

  /** The lock file: absent, created but still empty, or holding a record. */
  datatype File =
    | Absent
    | Birth(owner: Process, nonce: nat, since: nat)
    | Record(owner: Process, nonce: nat, at: nat)

  /** What a live process is doing. `Reclaiming` has read a stale file and will rename it aside. */
  datatype Phase = Idle | Opened(nonce: nat, since: nat) | Holding(nonce: nat) | Reclaiming

  /** `live` maps the live processes to their phases; `nonces` and `ids` count what has been given out. */
  datatype State = State(now: nat, file: File, live: map<Process, Phase>, nonces: nat, ids: nat)

  datatype Step =
    | Start(p: Process)
    | Crash(p: Process)
    | Tick(ms: nat)
    | Open(p: Process)    // the exclusive create succeeds
    | Write(p: Process)   // the record is written; acquire returns
    | Refresh(p: Process)
    | Release(p: Process)
    | Reclaim(p: Process) // read, rename aside, recheck, discard or restore, in one go
    | Observe(p: Process) // read only: the file looks stale
    | Commit(p: Process)  // rename aside, recheck, discard or restore

  /** `isProcessAlive` of the recorded pid, asked on the record's own host. */
  predicate SeenDead(s: State, p: Process, owner: Process) {
    p.host == owner.host && forall q :: q in s.live ==> q.host != owner.host || q.pid != owner.pid
  }

  /** `stale` of the file's content: no record at all, not refreshed in time, or the holder gone. */
  predicate Stale(s: State, p: Process) {
    match s.file
    case Absent => true
    case Birth(_, _, _) => true
    case Record(owner, _, at) => s.now - at > TTL_MS || SeenDead(s, p, owner)
  }

  /** What makes an acquirer reclaim the file it reads: an empty file counts only when it is no longer young. */
  predicate LooksStale(s: State, p: Process) {
    s.file != Absent && Stale(s, p) && (s.file.Birth? ==> s.now - s.file.since >= BIRTH_MS)
  }

  predicate Enabled(s: State, step: Step) {
    match step
    case Start(p) => p !in s.live && p.id >= s.ids
    case Crash(p) => p in s.live
    case Tick(_) => true
    case Open(p) => p in s.live && s.live[p].Idle? && s.file.Absent?
    case Write(p) => p in s.live && s.live[p].Opened?
    case Refresh(p) => p in s.live && s.live[p].Holding?
    case Release(p) => p in s.live && s.live[p].Holding?
    case Reclaim(p) => p in s.live && s.live[p].Idle? && LooksStale(s, p)
    case Observe(p) => p in s.live && s.live[p].Idle? && LooksStale(s, p)
    case Commit(p) => p in s.live && s.live[p].Reclaiming?
  }

  predicate IsOwn(f: File, nonce: nat) { f.Record? && f.nonce == nonce }

  function Apply(s: State, step: Step): State
    requires Enabled(s, step)
  {
    match step
    case Start(p) => s.(live := s.live[p := Idle], ids := p.id + 1)
    case Crash(p) => s.(live := s.live - {p})
    case Tick(ms) => s.(now := s.now + ms)
    case Open(p) =>
      s.(file := Birth(p, s.nonces, s.now), live := s.live[p := Opened(s.nonces, s.now)], nonces := s.nonces + 1)
    case Write(p) =>
      // a file that was renamed away in the meantime takes the record with it
      var n := s.live[p].nonce;
      var file := if s.file.Birth? && s.file.nonce == n then Record(p, n, s.now) else s.file;
      s.(file := file, live := s.live[p := Holding(n)])
    case Refresh(p) =>
      s.(file := if IsOwn(s.file, s.live[p].nonce) then s.file.(at := s.now) else s.file)
    case Release(p) =>
      s.(file := if IsOwn(s.file, s.live[p].nonce) then Absent else s.file, live := s.live[p := Idle])
    case Reclaim(p) => s.(file := if Stale(s, p) then Absent else s.file)
    case Observe(p) => s.(live := s.live[p := Reclaiming])
    case Commit(p) => s.(file := if Stale(s, p) then Absent else s.file, live := s.live[p := Idle])
  }

  datatype Outcome = Created | SawStale | Waits

  /** The lock file and the processes around it. Each method is what one process does to the file without
      interruption; a turn of the loop of `acquire` is `Turn`, followed by `TakeAway` when the file looked stale. */
  class LockFile {
    var now: nat
    var file: File
    var live: map<Process, Phase>
    var nonces: nat
    var ids: nat

    function View(): State
      reads this
    {
      State(now, file, live, nonces, ids)
    }

    constructor ()
      ensures Init(View())
    {
      now, file, live, nonces, ids := 0, Absent, map[], 0, 0;
    }

    /** Creates the file if there is none, waits for a birth or a holder, and turns to reclaiming what looks stale. */
    method Turn(p: Process) returns (outcome: Outcome)
      requires p in live && live[p].Idle?
      modifies this
      ensures outcome == Created <==> Enabled(old(View()), Open(p))
      ensures outcome == SawStale <==> Enabled(old(View()), Observe(p))
      ensures View() == match outcome
                        case Created => Apply(old(View()), Open(p))
                        case SawStale => Apply(old(View()), Observe(p))
                        case Waits => old(View())
    {
      if file.Absent? {
        file := Birth(p, nonces, now);
        live, nonces := live[p := Opened(nonces, now)], nonces + 1;
        return Created;
      }
      if file.Birth? && now - file.since < BIRTH_MS { return Waits; }
      if !Stale(View(), p) { return Waits; }
      live := live[p := Reclaiming];
      outcome := SawStale;
    }

    /** Renames the file aside, reads it again there, and discards it or puts it back. */
    method TakeAway(p: Process)
      requires Enabled(View(), Commit(p))
      modifies this
      ensures View() == Apply(old(View()), Commit(p))
    {
      live := live[p := Idle];
      if file.Absent? { return; }
      var aside := file;
      file := Absent;
      if aside.Record? && now - aside.at <= TTL_MS && !SeenDead(View(), p, aside.owner) { file := aside; }
    }

    /** The end of `acquire`: the record goes to the file that was created, wherever that is now. */
    method WriteRecord(p: Process)
      requires Enabled(View(), Write(p))
      modifies this
      ensures View() == Apply(old(View()), Write(p))
    {
      var nonce := live[p].nonce;
      if file.Birth? && file.nonce == nonce { file := Record(p, nonce, now); }
      live := live[p := Holding(nonce)];
    }

    /** `refresh`: only while the record is still ours. */
    method Beat(p: Process)
      requires Enabled(View(), Refresh(p))
      modifies this
      ensures View() == Apply(old(View()), Refresh(p))
      ensures file == if old(file).Record? && old(file).nonce == old(live)[p].nonce
                      then Record(old(file).owner, old(file).nonce, now) else old(file)
    {
      if !file.Record? || file.nonce != live[p].nonce { return; }
      file := Record(file.owner, file.nonce, now);
    }

    /** `release`: removes the file only if it is still ours. */
    method Drop(p: Process)
      requires Enabled(View(), Release(p))
      modifies this
      ensures View() == Apply(old(View()), Release(p))
      ensures file == if old(file).Record? && old(file).nonce == old(live)[p].nonce then Absent else old(file)
      ensures live == old(live)[p := Idle]
    {
      if file.Record? && file.nonce == live[p].nonce { file := Absent; }
      live := live[p := Idle];
    }
  }

  /** The timing that the lock relies on: a live acquirer writes its record before its file looks abandoned, and a
      live holder's record, if the file still has it, was written or refreshed at most TTL_MS ago. */
  predicate Timely(s: State) {
    && (forall p :: p in s.live && s.live[p].Opened? ==> s.now - s.live[p].since < BIRTH_MS)
    && (s.file.Record? && s.file.owner in s.live && s.live[s.file.owner] == Holding(s.file.nonce) ==>
          s.now - s.file.at <= TTL_MS)
  }

  predicate HasLock(s: State, p: Process) { p in s.live && s.live[p].Holding? }

  /** At most one live process is between a successful acquire and its release. */
  ghost predicate Exclusive(s: State) {
    forall p, q :: HasLock(s, p) && HasLock(s, q) ==> p == q
  }

  /** The file belongs to whoever has created or holds the lock, and nonces are not reused. */
  predicate Inv(s: State) {
    && (forall p :: p in s.live && s.live[p].Opened? ==> s.file == Birth(p, s.live[p].nonce, s.live[p].since))
    && (forall p :: p in s.live && s.live[p].Holding? ==>
          s.file.Record? && s.file.owner == p && s.file.nonce == s.live[p].nonce)
    && (s.file != Absent ==> s.file.nonce < s.nonces && s.file.owner.id < s.ids)
    && (forall p :: p in s.live ==> p.id < s.ids)
  }

  /** A split reclaim throws away the empty file that a live acquirer has just created: what it moved aside has no
      record, and the recheck does not look at the age again. */
  predicate DiscardsLiveBirth(s: State, step: Step) {
    (step.Commit? || step.Reclaim?) && s.file.Birth?
    && s.file.owner in s.live && s.live[s.file.owner] == Opened(s.file.nonce, s.file.since)
  }

  predicate Init(s: State) {
    s.live == map[] && s.file == Absent
  }

  /** A reclaim that nobody interrupts is the two halves one after the other. */
  lemma ReclaimIsBothHalves(s: State, p: Process)
    requires Enabled(s, Observe(p))
    ensures Enabled(s, Reclaim(p)) && Enabled(Apply(s, Observe(p)), Commit(p))
    ensures Apply(Apply(s, Observe(p)), Commit(p)) == Apply(s, Reclaim(p))
  {
    assert s.live[p := Reclaiming][p := Idle] == s.live;
  }

  lemma StepKeepsInv(s: State, step: Step)
    requires Inv(s) && Timely(s) && Enabled(s, step) && !DiscardsLiveBirth(s, step)
    ensures Inv(Apply(s, step))
  {
    if step.Reclaim? || step.Commit? {
      if Stale(s, step.p) { StaleIsFree(s, step.p); }
    }
  }

  /** A stale record has no live holder: it would have been refreshed, and its process would be seen. */
  lemma StaleIsFree(s: State, p: Process)
    requires Inv(s) && Timely(s) && Stale(s, p)
    ensures forall q :: q in s.live ==> !s.live[q].Holding?
  {
  }

  /** For a commit the condition is exact: it keeps the invariant only when no live birth is discarded. */
  lemma CommitExactly(s: State, p: Process)
    requires Inv(s) && Timely(s) && Enabled(s, Commit(p))
    ensures Inv(Apply(s, Commit(p))) <==> !DiscardsLiveBirth(s, Commit(p))
  {
    if DiscardsLiveBirth(s, Commit(p)) {
      var q, t := s.file.owner, Apply(s, Commit(p));
      assert q != p && q in t.live && t.live[q].Opened? && t.file == Absent;
    } else {
      StepKeepsInv(s, Commit(p));
    }
  }

  // ----- runs -----

  ghost predicate Run(states: seq<State>, steps: seq<Step>) {
    && |states| == |steps| + 1
    && forall i :: 0 <= i < |steps| ==> Enabled(states[i], steps[i]) && states[i + 1] == Apply(states[i], steps[i])
  }

  ghost predicate AllTimely(states: seq<State>) { forall i :: 0 <= i < |states| ==> Timely(states[i]) }

  lemma {:induction false} InvOverRuns(states: seq<State>, steps: seq<Step>, k: nat)
    requires Run(states, steps) && AllTimely(states) && Inv(states[0]) && k < |states|
    requires forall i :: 0 <= i < |steps| ==> !DiscardsLiveBirth(states[i], steps[i])
    ensures Inv(states[k])
  {
    if k == 0 {
    } else {
      InvOverRuns(states, steps, k - 1);
      assert states[k] == Apply(states[k - 1], steps[k - 1]);
      StepKeepsInv(states[k - 1], steps[k - 1]);
    }
  }

  /** Mutual exclusion over whole runs in which no reclaim discards a live birth. */
  lemma MutualExclusion(states: seq<State>, steps: seq<Step>)
    requires Run(states, steps) && AllTimely(states) && Init(states[0])
    requires forall i :: 0 <= i < |steps| ==> !DiscardsLiveBirth(states[i], steps[i])
    ensures forall k :: 0 <= k < |states| ==> Exclusive(states[k])
  {
    forall k | 0 <= k < |states| ensures Exclusive(states[k]) { InvOverRuns(states, steps, k); }
  }

  predicate IsSplit(step: Step) { step.Observe? || step.Commit? }

  /** In particular mutual exclusion holds whenever reclaims are not interrupted. */
  lemma AtomicMutualExclusion(states: seq<State>, steps: seq<Step>)
    requires Run(states, steps) && AllTimely(states) && Init(states[0])
    requires forall i :: 0 <= i < |steps| ==> !IsSplit(steps[i])
    ensures forall k :: 0 <= k < |states| ==> Exclusive(states[k])
  {
    forall i | 0 <= i < |steps| ensures !DiscardsLiveBirth(states[i], steps[i]) {
      assert Timely(states[i]) && Enabled(states[i], steps[i]) && !IsSplit(steps[i]);
    }
    MutualExclusion(states, steps);
  }

  lemma EmptyRun(s: State) returns (states: seq<State>, steps: seq<Step>)
    requires Timely(s)
    ensures states == [s] && steps == [] && Run(states, steps) && AllTimely(states)
  {
    states, steps := [s], [];
  }

  lemma Extend(states: seq<State>, steps: seq<Step>, s: State, step: Step)
    returns (states': seq<State>, steps': seq<Step>)
    requires Run(states, steps) && AllTimely(states) && |states| > 0 && states[|states| - 1] == s
    requires Enabled(s, step) && Timely(Apply(s, step))
    ensures Run(states', steps') && AllTimely(states') && steps' == steps + [step]
    ensures |states'| == |states| + 1 && states'[0] == states[0] && states'[|states'| - 1] == Apply(s, step)
  {
    hide Enabled, Apply, Timely;
    states', steps' := states + [Apply(s, step)], steps + [step];
  }

  /** Discarding a live birth always lets two processes in: the discarder creates the file anew, and then both write. */
  lemma DiscardLetsTwoIn(s: State, p: Process) returns (states: seq<State>, steps: seq<Step>)
    requires Inv(s) && Timely(s) && Enabled(s, Commit(p)) && DiscardsLiveBirth(s, Commit(p))
    ensures Run(states, steps) && AllTimely(states) && states[0] == s
    ensures steps == [Commit(p), Open(p), Write(p), Write(s.file.owner)]
    ensures !Exclusive(states[|states| - 1])
  {
    hide Run, AllTimely;
    var q := s.file.owner;
    states, steps := EmptyRun(s);
    states, steps := Extend(states, steps, s, Commit(p));
    states, steps := Extend(states, steps, Apply(s, Commit(p)), Open(p));
    var created := states[|states| - 1];
    states, steps := Extend(states, steps, created, Write(p));
    var written := states[|states| - 1];
    states, steps := Extend(states, steps, written, Write(q));
    var last := states[|states| - 1];
    assert p != q && HasLock(last, p) && HasLock(last, q);
  }

  /** Such a discard does happen: a's record goes stale, b sees it, c reclaims it and creates its own file, and then b
      carries on. */
  lemma DiscardHappens() returns (states: seq<State>, steps: seq<Step>, b: Process)
    ensures Run(states, steps) && AllTimely(states) && Init(states[0])
    ensures Enabled(states[|states| - 1], Commit(b)) && DiscardsLiveBirth(states[|states| - 1], Commit(b))
  {
    hide Run, AllTimely, Enabled, DiscardsLiveBirth;
    var a, c := Process(0, 0, 1), Process(2, 2, 3);
    b := Process(1, 1, 2);
    states, steps := CrashedHolder(a, b, c);
    states, steps := BirthUnderReclaim(states, steps, a, b, c);
  }

  lemma BirthUnderReclaim(before: seq<State>, past: seq<Step>, a: Process, b: Process, c: Process)
    returns (states: seq<State>, steps: seq<Step>)
    requires a.id == 0 && b.id == 1 && c.id == 2
    requires Run(before, past) && AllTimely(before) && |before| > 0
    requires before[|before| - 1] == State(0, Record(a, 0, 0), map[b := Idle, c := Idle], 1, 3)
    ensures Run(states, steps) && AllTimely(states) && |states| > 0 && states[0] == before[0]
    ensures Enabled(states[|states| - 1], Commit(b)) && DiscardsLiveBirth(states[|states| - 1], Commit(b))
  {
    hide Run, AllTimely;
    var late := 30001;
    var s := State(0, Record(a, 0, 0), map[b := Idle, c := Idle], 1, 3);
    assert a !in s.live;
    states, steps := Extend(before, past, s, Tick(late));
    s := State(late, Record(a, 0, 0), map[b := Idle, c := Idle], 1, 3);
    states, steps := Extend(states, steps, s, Observe(b));
    s := State(late, Record(a, 0, 0), map[b := Reclaiming, c := Idle], 1, 3);
    states, steps := Extend(states, steps, s, Reclaim(c));
    s := State(late, Absent, map[b := Reclaiming, c := Idle], 1, 3);
    states, steps := Extend(states, steps, s, Open(c));
  }

  lemma CrashedHolder(a: Process, b: Process, c: Process) returns (states: seq<State>, steps: seq<Step>)
    requires a.id == 0 && b.id == 1 && c.id == 2
    ensures Run(states, steps) && AllTimely(states) && |states| > 0 && Init(states[0])
    ensures states[|states| - 1] == State(0, Record(a, 0, 0), map[b := Idle, c := Idle], 1, 3)
  {
    hide Run, AllTimely;
    var s := State(0, Absent, map[], 0, 0);
    states, steps := EmptyRun(s);
    states, steps := Extend(states, steps, s, Start(a));
    states, steps := Extend(states, steps, State(0, Absent, map[a := Idle], 0, 1), Start(b));
    states, steps := Extend(states, steps, State(0, Absent, map[a := Idle, b := Idle], 0, 2), Start(c));
    s := State(0, Absent, map[a := Idle, b := Idle, c := Idle], 0, 3);
    states, steps := Extend(states, steps, s, Open(a));
    s := State(0, Birth(a, 0, 0), map[a := Opened(0, 0), b := Idle, c := Idle], 1, 3);
    states, steps := Extend(states, steps, s, Write(a));
    s := State(0, Record(a, 0, 0), map[a := Holding(0), b := Idle, c := Idle], 1, 3);
    states, steps := Extend(states, steps, s, Crash(a));
    assert s.live - {a} == map[b := Idle, c := Idle];
  }

  /** Who reclaims what: a created file without record when it is 3 seconds old, a record when it has not been refreshed
      for more than 30 seconds, or when its process is gone from the reclaimer's own host. */
  lemma ReclaimedExactly(s: State, p: Process)
    requires p in s.live && s.live[p].Idle?
    ensures Enabled(s, Observe(p))
            <==> match s.file
                 case Absent => false
                 case Birth(_, _, since) => s.now - since >= 3000
                 case Record(owner, _, at) =>
                   || s.now - at > 30000
                   || (p.host == owner.host && forall q :: q in s.live && q.host == p.host ==> q.pid != owner.pid)
  {}

  // ----- a holder's life -----

  /** Who creates the file and writes its record holds the lock, with the record under its own nonce. */
  lemma AcquireHolds(s: State, p: Process)
    requires Enabled(s, Open(p))
    ensures Enabled(Apply(s, Open(p)), Write(p))
    ensures var t := Apply(Apply(s, Open(p)), Write(p));
            HasLock(t, p) && t.file == Record(p, s.nonces, s.now) && t.live[p] == Holding(s.nonces)
  {}

  /** A beat keeps the holder's own record from going stale for another 30 seconds, for everybody. */
  lemma BeatKeepsFresh(s: State, p: Process, q: Process, ms: nat)
    requires Enabled(s, Refresh(p)) && s.file.Record? && s.file.owner == p && s.file.nonce == s.live[p].nonce
    requires ms <= 30000
    ensures var t := Apply(Apply(s, Refresh(p)), Tick(ms));
            !Stale(t, q) && !Enabled(t, Observe(q)) && !Enabled(t, Reclaim(q))
  {}

  /** A release frees the lock for every process that waits for it; it leaves alone a file that is not its own. */
  lemma ReleaseFrees(s: State, p: Process)
    requires Enabled(s, Release(p))
    ensures var t, own := Apply(s, Release(p)), s.file.Record? && s.file.nonce == s.live[p].nonce;
            && t.file == (if own then Absent else s.file) && !HasLock(t, p)
            && (own ==> forall q :: q in t.live && t.live[q].Idle? ==> Enabled(t, Open(q)))
  {}

  /** In a run without a discarded birth a holder's record is its own, so after its release the next turn of any process
      that waits creates the file. */
  lemma ReleaseLetsNextIn(states: seq<State>, steps: seq<Step>, k: nat, q: Process)
    requires Run(states, steps) && AllTimely(states) && Init(states[0])
    requires forall i :: 0 <= i < |steps| ==> !DiscardsLiveBirth(states[i], steps[i])
    requires k < |steps| && steps[k].Release? && q in states[k + 1].live && states[k + 1].live[q].Idle?
    ensures states[k + 1].file == Absent && Enabled(states[k + 1], Open(q))
  {
    hide DiscardsLiveBirth, Timely;
    InvOverRuns(states, steps, k);
    assert Enabled(states[k], steps[k]) && states[k + 1] == Apply(states[k], steps[k]);
    ReleaseFrees(states[k], steps[k].p);
  }

  // ----- crashed holders -----

  /** The process that the file belongs to has crashed. */
  predicate Orphaned(s: State) {
    s.file != Absent && s.file.owner !in s.live && s.file.owner.id < s.ids
  }

  predicate HasNonce(s: State, p: Process) { p in s.live && (s.live[p].Opened? || s.live[p].Holding?) }

  /** Nonces and process identities are not reused. This holds in every run, also when exclusion has been lost. */
  ghost predicate Numbered(s: State) {
    && (s.file != Absent ==> s.file.nonce < s.nonces && s.file.owner.id < s.ids)
    && (forall p :: p in s.live ==> p.id < s.ids)
    && (forall p :: HasNonce(s, p) ==> s.live[p].nonce < s.nonces)
    && (forall p, q :: HasNonce(s, p) && HasNonce(s, q) && s.live[p].nonce == s.live[q].nonce ==> p == q)
    && (forall p :: HasNonce(s, p) && s.file != Absent && s.file.nonce == s.live[p].nonce ==> s.file.owner == p)
  }

  /** The nonces and the file's owner are as before, but for some that are gone. */
  ghost predicate NoNewNonce(s: State, t: State) {
    && (forall p :: HasNonce(t, p) ==> HasNonce(s, p) && t.live[p].nonce == s.live[p].nonce)
    && (t.file != Absent ==> s.file != Absent && t.file.nonce == s.file.nonce && t.file.owner == s.file.owner)
    && s.nonces <= t.nonces && s.ids <= t.ids
  }

  lemma NoNewNonceKeeps(s: State, t: State)
    requires Numbered(s) && NoNewNonce(s, t) && forall p :: p in t.live ==> p.id < t.ids
    ensures Numbered(t)
  {}

  /** No step needs any timing, or anything to be true of who holds the lock, to keep the numbers apart. */
  lemma StepKeepsNumbered(s: State, step: Step)
    requires Numbered(s) && Enabled(s, step)
    ensures Numbered(Apply(s, step))
  {
    var t := Apply(s, step);
    if step.Open? {
      assert forall p :: HasNonce(t, p) ==> if p == step.p then t.live[p].nonce == s.nonces else HasNonce(s, p);
    } else {
      if step.Write? { assert HasNonce(s, step.p); }
      NoNewNonceKeeps(s, t);
    }
  }

  /** Nobody refreshes an orphaned file: every step leaves it as it is or frees it. */
  lemma OrphanStays(s: State, step: Step)
    requires Numbered(s) && Orphaned(s) && Enabled(s, step)
    ensures var t := Apply(s, step); (t.file == s.file && Orphaned(t)) || t.file == Absent
  {
    if step.Write? || step.Refresh? { assert HasNonce(s, step.p); }
  }

  lemma {:induction false} NumberedOverRuns(states: seq<State>, steps: seq<Step>, k: nat)
    requires Run(states, steps) && Init(states[0]) && k < |states|
    ensures Numbered(states[k])
  {
    if k == 0 {
    } else {
      NumberedOverRuns(states, steps, k - 1);
      assert states[k] == Apply(states[k - 1], steps[k - 1]);
      StepKeepsNumbered(states[k - 1], steps[k - 1]);
    }
  }

  function LastSign(f: File): nat
    requires f != Absent
  {
    if f.Birth? then f.since else f.at
  }

  /** A crashed holder's file becomes reclaimable: once TTL_MS have passed since its last sign of life, every process
      that tries to acquire the lock frees it and can then create its own. */
  lemma OrphanIsReclaimable(s: State, p: Process)
    requires Orphaned(s) && s.now > LastSign(s.file) + TTL_MS && p in s.live && s.live[p].Idle?
    ensures Enabled(s, Reclaim(p)) && Apply(s, Reclaim(p)).file == Absent
    ensures Enabled(Apply(s, Reclaim(p)), Open(p))
  {}

  /** On the crashed process's own host nobody has to wait: its record is freed as soon as its pid is gone. */
  lemma DeadIsSeen(s: State, p: Process)
    requires Orphaned(s) && s.file.Record? && p in s.live && s.live[p].Idle? && p.host == s.file.owner.host
    requires forall q :: q in s.live && q.host == p.host ==> q.pid != s.file.owner.pid
    ensures Enabled(s, Reclaim(p)) && Apply(s, Reclaim(p)).file == Absent
  {}

  /** So in every run, whatever the timing and whether or not exclusion has been lost, the file of a process that has
      crashed by the j-th state has been freed by the k-th, or can be freed by anyone after TTL_MS. */
  lemma {:induction false} OrphanOverRuns(states: seq<State>, steps: seq<Step>, j: nat, k: nat, p: Process)
    requires Run(states, steps) && Init(states[0]) && j <= k < |states| && Orphaned(states[j])
    ensures || (exists i :: j < i <= k && states[i].file == Absent)
            || (&& states[k].file == states[j].file && Orphaned(states[k])
                && (states[k].now > LastSign(states[j].file) + TTL_MS && p in states[k].live && states[k].live[p].Idle?
                    ==> Enabled(states[k], Reclaim(p)) && Apply(states[k], Reclaim(p)).file == Absent))
    decreases k
  {
    hide Enabled, Apply, Numbered, Orphaned, LastSign;
    if j == k {
    } else {
      OrphanOverRuns(states, steps, j, k - 1, p);
      var s, step := states[k - 1], steps[k - 1];
      assert states[k] == Apply(s, step);
      NumberedOverRuns(states, steps, k - 1);
      if Orphaned(s) { OrphanStays(s, step); }
    }
    if Orphaned(states[k]) && p in states[k].live && states[k].live[p].Idle? && states[k].file == states[j].file {
      OrphanFreed(states[k], p);
    }
  }

  lemma OrphanFreed(s: State, p: Process)
    requires Orphaned(s) && p in s.live && s.live[p].Idle?
    ensures s.file != Absent && (s.now > LastSign(s.file) + TTL_MS
            ==> Enabled(s, Reclaim(p)) && Apply(s, Reclaim(p)).file == Absent)
  {
    if s.now > LastSign(s.file) + TTL_MS { OrphanIsReclaimable(s, p); }
  }
}
