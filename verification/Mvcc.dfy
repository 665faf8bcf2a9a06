/** The versioned cell of mvcc/mvcc.hpp, as a state machine over the atomic loads and compare-and-swaps of its threads. */
module Mvcc {
  // Snapshots are told apart by identity, as shared pointers are, and a thread that holds one keeps it from being
  // reused. What happens between two atomic operations (allocation, calling the updater, setting the version of a
  // snapshot that nobody else can see) is part of the step before. `commits`, `origins`, `fails` and the field `at` of a
  // thread are history variables.

  type Id = nat
  type Tid = nat
  type Value = int
  type Updater = (nat, Value) -> Value

  /** Versions are of type size_t. */
  const SIZE: nat := 0x1_0000_0000_0000_0000

  datatype Snapshot = Snapshot(version: nat, value: Value)

  datatype Thread =
    | Idle
    | OverwriteLoop(desired: Id)
    | OverwriteReady(desired: Id, expected: Id, at: nat)
    | UpdateLoop(updater: Updater, retry: bool)
    | UpdateReady(updater: Updater, retry: bool, desired: Id, expected: Id, at: nat)
    | Returned(snapshot: Id)
    | ReturnedNull

  /** Which thread published a snapshot, and how it got its value. */
  datatype Origin = Overwrite(who: Tid, value: Value) | Update(who: Tid, updater: Updater)

  datatype State = State(
    heap: map<Id, Snapshot>, current: Id, threads: map<Tid, Thread>,
    commits: seq<Id>, origins: seq<Origin>, fails: map<Tid, nat>)

  datatype Action =
    | Overwriting(t: Tid, value: Value, id: Id)
    | Updating(t: Tid, updater: Updater, retry: bool)
    | Reading(t: Tid)
    | Step(t: Tid, id: Id)

  function Init(id: Id, value: Value): State {
    State(map[id := Snapshot(0, value)], id, map[], [id], [], map[])
  }

  function Of(s: State, t: Tid): Thread {
    if t in s.threads then s.threads[t] else Idle
  }

  function Fails(s: State, t: Tid): nat {
    if t in s.fails then s.fails[t] else 0
  }

  ghost predicate WellFormed(s: State) {
    && s.current in s.heap && s.commits != []
    && forall t :: t in s.threads ==>
      match s.threads[t]
      case OverwriteLoop(desired) => desired in s.heap
      case OverwriteReady(desired, expected, _) => desired in s.heap && expected in s.heap
      case UpdateReady(_, _, desired, expected, _) => desired in s.heap && expected in s.heap
      case _ => true
  }

  ghost predicate Busy(thread: Thread) {
    thread.OverwriteLoop? || thread.OverwriteReady? || thread.UpdateLoop? || thread.UpdateReady?
  }

  /** A thread may start an operation when it is not in one; identities of new snapshots are new. */
  ghost predicate Enabled(s: State, a: Action) {
    match a
    case Overwriting(t, value, id) => !Busy(Of(s, t)) && id !in s.heap
    case Updating(t, updater, retry) => !Busy(Of(s, t))
    case Reading(t) => !Busy(Of(s, t))
    case Step(t, id) => Busy(Of(s, t)) && id !in s.heap
  }

  /** A successful compare-and-swap. */
  function Commit(s: State, t: Tid, desired: Id, origin: Origin): State {
    s.(current := desired, threads := s.threads[t := Returned(desired)], commits := s.commits + [desired], origins := s.origins + [origin])
  }

  /** A failed one. */
  function Fail(s: State, t: Tid, next: Thread): State {
    s.(threads := s.threads[t := next], fails := s.fails[t := Fails(s, t) + 1])
  }

  ghost function Apply(s: State, a: Action): State
    requires WellFormed(s) && Enabled(s, a)
  {
    match a
    case Overwriting(t, value, id) =>
      s.(heap := s.heap[id := Snapshot(0, value)], threads := s.threads[t := OverwriteLoop(id)])
    case Updating(t, updater, retry) =>
      s.(threads := s.threads[t := UpdateLoop(updater, retry)])
    case Reading(t) =>
      s.(threads := s.threads[t := Returned(s.current)])
    case Step(t, id) =>
      var now := |s.commits| - 1;
      match s.threads[t]
      case OverwriteLoop(desired) =>
        var version := (s.heap[s.current].version + 1) % SIZE;
        s.(heap := s.heap[desired := s.heap[desired].(version := version)], threads := s.threads[t := OverwriteReady(desired, s.current, now)])
      case OverwriteReady(desired, expected, _) =>
        if s.current == expected then Commit(s, t, desired, Overwrite(t, s.heap[desired].value))
        else Fail(s, t, OverwriteLoop(desired))
      case UpdateLoop(updater, retry) =>
        var c := s.heap[s.current];
        s.(heap := s.heap[id := Snapshot((c.version + 1) % SIZE, updater(c.version, c.value))],
           threads := s.threads[t := UpdateReady(updater, retry, id, s.current, now)])
      case UpdateReady(updater, retry, desired, expected, _) =>
        if s.current == expected then Commit(s, t, desired, Update(t, updater))
        else Fail(s, t, if retry then UpdateLoop(updater, retry) else ReturnedNull)
  }

  // ---------- the invariant ----------

  /** How many of the commits were made by threads other than `t`. */
  function OthersCommits(origins: seq<Origin>, t: Tid): nat {
    if origins == [] then 0
    else OthersCommits(origins[..|origins| - 1], t) + if origins[|origins| - 1].who == t then 0 else 1
  }

  /** The snapshot `c` follows from its predecessor `p` in the way its origin says. */
  ghost predicate Follows(p: Snapshot, origin: Origin, c: Snapshot) {
    match origin
    case Overwrite(_, value) => c.value == value
    case Update(_, updater) => c.value == updater(p.version, p.value)
  }

  ghost predicate CommitsOk(s: State) {
    && |s.commits| == |s.origins| + 1 && s.current == s.commits[|s.commits| - 1]
    && (forall k :: 0 <= k < |s.commits| ==> s.commits[k] in s.heap && s.heap[s.commits[k]].version == k % SIZE)
    && (forall j, k :: 0 <= j < k < |s.commits| ==> s.commits[j] != s.commits[k])
    && (forall k :: 0 <= k < |s.origins| ==> Follows(s.heap[s.commits[k]], s.origins[k], s.heap[s.commits[k + 1]]))
  }

  /** `desired` is known to thread `t` only. */
  ghost predicate Private(s: State, t: Tid, desired: Id) {
    && desired in s.heap && desired !in s.commits
    && forall u :: u in s.threads && u != t ==> !Owns(s.threads[u], desired)
  }

  ghost predicate Owns(thread: Thread, id: Id) {
    (thread.OverwriteLoop? || thread.OverwriteReady? || thread.UpdateReady?) && thread.desired == id
  }

  /** The commits since `at` were all made by other threads, and each failure of `t` so far came before one that was. */
  ghost predicate Loaded(s: State, t: Tid, expected: Id, at: nat) {
    && at < |s.commits| && s.commits[at] == expected
    && (forall k :: at <= k < |s.origins| ==> s.origins[k].who != t)
    && at <= |s.origins| && Fails(s, t) <= OthersCommits(s.origins[..at], t)
  }

  ghost predicate ThreadOk(s: State, t: Tid) {
    match Of(s, t)
    case Idle => true
    case OverwriteLoop(desired) => Private(s, t, desired)
    case OverwriteReady(desired, expected, at) =>
      Private(s, t, desired) && Loaded(s, t, expected, at) && s.heap[desired].version == (at + 1) % SIZE
    case UpdateLoop(updater, retry) => true
    case UpdateReady(updater, retry, desired, expected, at) =>
      && Private(s, t, desired) && Loaded(s, t, expected, at) && s.heap[desired].version == (at + 1) % SIZE
      && expected in s.heap && Follows(s.heap[expected], Update(t, updater), s.heap[desired])
    case Returned(id) => id in s.commits
    case ReturnedNull => true
  }

  ghost predicate Inv(s: State) {
    && WellFormed(s) && CommitsOk(s)
    && (forall t :: t in s.threads ==> ThreadOk(s, t))
    && (forall t :: Fails(s, t) <= OthersCommits(s.origins, t))
  }

  lemma InitInv(id: Id, value: Value)
    ensures Inv(Init(id, value))
  { }

  lemma {:induction false} OthersMore(origins: seq<Origin>, n: nat, t: Tid)
    requires n <= |origins|
    ensures OthersCommits(origins[..n], t) <= OthersCommits(origins, t)
  {
    if n < |origins| {
      var m := |origins| - 1;
      OthersMore(origins[..m], n, t);
      assert origins[..m][..n] == origins[..n];
    } else {
      assert origins[..n] == origins;
    }
  }

  lemma {:induction false} OthersOne(origins: seq<Origin>, n: nat, t: Tid)
    requires n < |origins| && origins[n].who != t
    ensures OthersCommits(origins[..n + 1], t) == OthersCommits(origins[..n], t) + 1
  {
    assert origins[..n + 1][..n] == origins[..n];
  }

  lemma {:induction false} OthersAppend(origins: seq<Origin>, o: Origin, t: Tid)
    ensures OthersCommits(origins + [o], t) == OthersCommits(origins, t) + if o.who == t then 0 else 1
  {
    assert (origins + [o])[..|origins|] == origins;
  }

  /** `s'` differs from `s` in thread `t`, in snapshots that only `t` knows or that are new, and in the failures of `t`. */
  ghost predicate Local(s: State, s': State, t: Tid) {
    && s' == s.(heap := s'.heap, threads := s'.threads, fails := s'.fails)
    && t in s'.threads && s'.threads == s.threads[t := s'.threads[t]]
    && (forall id :: id in s.heap ==> id in s'.heap && (!Owns(Of(s, t), id) ==> s'.heap[id] == s.heap[id]))
    && (forall u :: u != t ==> Fails(s', u) == Fails(s, u))
    && (forall id :: id in s.heap && Owns(s'.threads[t], id) ==> Owns(Of(s, t), id))
  }

  lemma {:induction false} LocalOther(s: State, s': State, t: Tid, u: Tid)
    requires Inv(s) && Local(s, s', t) && u in s.threads && u != t
    ensures ThreadOk(s', u)
  {
    assert ThreadOk(s, u);
    if t in s.threads { assert ThreadOk(s, t); }
  }

  /** A step that publishes nothing keeps the invariant if it is right for its own thread. */
  lemma {:induction false} LocalInv(s: State, s': State, t: Tid)
    requires Inv(s) && Local(s, s', t) && ThreadOk(s', t) && Fails(s', t) <= OthersCommits(s.origins, t)
    ensures Inv(s')
  {
    if t in s.threads { assert ThreadOk(s, t); }
    forall u | u in s'.threads ensures ThreadOk(s', u) {
      if u != t { LocalOther(s, s', t, u); }
    }
    assert CommitsOk(s') by { LocalCommits(s, s', t); }
    assert WellFormed(s') by { LocalWellFormed(s, s', t); }
  }

  lemma {:induction false} LocalCommits(s: State, s': State, t: Tid)
    requires Inv(s) && Local(s, s', t)
    ensures CommitsOk(s')
  {
    if t in s.threads { assert ThreadOk(s, t); }
    forall k | 0 <= k < |s.commits| ensures s.commits[k] in s'.heap && s'.heap[s.commits[k]] == s.heap[s.commits[k]] {
      assert s.commits[k] in s.commits;
    }
  }

  lemma {:induction false} LocalWellFormed(s: State, s': State, t: Tid)
    requires Inv(s) && Local(s, s', t) && ThreadOk(s', t)
    ensures WellFormed(s')
  { }

  lemma {:induction false} StartInv(s: State, a: Action)
    requires Inv(s) && Enabled(s, a) && !a.Step?
    ensures Inv(Apply(s, a))
  {
    LocalInv(s, Apply(s, a), a.t);
  }

  /** The load of an overwrite, which also gives the private snapshot its version. */
  lemma {:induction false} OverwriteLoadInv(s: State, t: Tid, id: Id)
    requires Inv(s) && Enabled(s, Step(t, id)) && s.threads[t].OverwriteLoop?
    ensures Inv(Apply(s, Step(t, id)))
  {
    assert ThreadOk(s, t);
    var s' := Apply(s, Step(t, id));
    assert ThreadOk(s', t) by { LoadedNow(s, t); }
    LocalInv(s, s', t);
  }

  /** The load of an update, which calls the updater on what it loaded. */
  lemma {:induction false} UpdateLoadInv(s: State, t: Tid, id: Id)
    requires Inv(s) && Enabled(s, Step(t, id)) && s.threads[t].UpdateLoop?
    ensures Inv(Apply(s, Step(t, id)))
  {
    assert ThreadOk(s, t);
    var s' := Apply(s, Step(t, id));
    assert ThreadOk(s', t) by {
      LoadedNow(s, t);
      assert forall u :: u in s.threads ==> ThreadOk(s, u);
      assert forall c :: c in s.commits ==> c in s.heap by { CommitsInHeap(s); }
    }
    LocalInv(s, s', t);
  }

  lemma {:induction false} CommitsInHeap(s: State)
    requires CommitsOk(s)
    ensures forall c :: c in s.commits ==> c in s.heap
  {
    forall c | c in s.commits ensures c in s.heap {
      var k :| 0 <= k < |s.commits| && s.commits[k] == c;
    }
  }

  lemma {:induction false} LoadedNow(s: State, t: Tid)
    requires Inv(s)
    ensures Loaded(s, t, s.current, |s.commits| - 1)
    ensures s.heap[s.current].version == (|s.commits| - 1) % SIZE
    ensures (s.heap[s.current].version + 1) % SIZE == |s.commits| % SIZE
  {
    assert s.origins[..|s.origins|] == s.origins;
  }

  function Expected(thread: Thread): Id
    requires thread.OverwriteReady? || thread.UpdateReady?
  {
    thread.expected
  }

  /** A failed attempt is paid for: another thread has committed since this one loaded. */
  lemma {:induction false} Paid(s: State, t: Tid, expected: Id, at: nat)
    requires Inv(s) && Loaded(s, t, expected, at) && s.current != expected
    ensures at < |s.origins| && s.origins[at].who != t
    ensures Fails(s, t) + 1 <= OthersCommits(s.origins[..at + 1], t) <= OthersCommits(s.origins, t)
  {
    OthersOne(s.origins, at, t);
    OthersMore(s.origins, at + 1, t);
  }

  lemma {:induction false} FailInv(s: State, t: Tid, id: Id)
    requires Inv(s) && Enabled(s, Step(t, id)) && (s.threads[t].OverwriteReady? || s.threads[t].UpdateReady?)
    requires s.current != Expected(s.threads[t])
    ensures Inv(Apply(s, Step(t, id)))
  {
    assert ThreadOk(s, t);
    Paid(s, t, s.threads[t].expected, s.threads[t].at);
    FailLocal(s, t, id);
    LocalInv(s, Apply(s, Step(t, id)), t);
  }

  lemma {:induction false} FailLocal(s: State, t: Tid, id: Id)
    requires WellFormed(s) && Enabled(s, Step(t, id)) && (s.threads[t].OverwriteReady? || s.threads[t].UpdateReady?)
    requires s.current != Expected(s.threads[t]) && ThreadOk(s, t)
    ensures var s' := Apply(s, Step(t, id));
      Local(s, s', t) && ThreadOk(s', t) && Fails(s', t) == Fails(s, t) + 1
  { }

  /** A commit leaves every other thread in order: the new commit is not theirs, and what they own stays theirs. */
  lemma {:induction false} CommitOther(s: State, t: Tid, desired: Id, origin: Origin, u: Tid)
    requires Inv(s) && Private(s, t, desired) && origin.who == t && u in s.threads && u != t
    ensures ThreadOk(Commit(s, t, desired, origin), u)
  {
    assert ThreadOk(s, u);
    var s' := Commit(s, t, desired, origin);
    if Of(s, u).OverwriteReady? || Of(s, u).UpdateReady? {
      var at := s.threads[u].at;
      assert s'.origins[..at] == s.origins[..at];
    }
  }

  lemma {:induction false} CommitsMore(s: State, t: Tid, desired: Id, origin: Origin)
    requires Inv(s) && Private(s, t, desired) && s.heap[desired].version == |s.commits| % SIZE
    requires Follows(s.heap[s.current], origin, s.heap[desired])
    ensures CommitsOk(Commit(s, t, desired, origin))
  {
    var s' := Commit(s, t, desired, origin);
    forall k | 0 <= k < |s'.origins| ensures Follows(s'.heap[s'.commits[k]], s'.origins[k], s'.heap[s'.commits[k + 1]]) {
      if k < |s.origins| {
        assert Follows(s.heap[s.commits[k]], s.origins[k], s.heap[s.commits[k + 1]]);
      }
    }
  }

  lemma {:induction false} CommitInv(s: State, t: Tid, desired: Id, origin: Origin)
    requires Inv(s) && Private(s, t, desired) && origin.who == t && s.heap[desired].version == |s.commits| % SIZE
    requires Follows(s.heap[s.current], origin, s.heap[desired])
    ensures Inv(Commit(s, t, desired, origin))
  {
    var s' := Commit(s, t, desired, origin);
    CommitsMore(s, t, desired, origin);
    forall u | u in s'.threads ensures ThreadOk(s', u) {
      if u != t { CommitOther(s, t, desired, origin, u); }
    }
    forall u ensures Fails(s', u) <= OthersCommits(s'.origins, u) {
      OthersAppend(s.origins, origin, u);
    }
  }

  lemma {:induction false} SwapInv(s: State, t: Tid, id: Id)
    requires Inv(s) && Enabled(s, Step(t, id)) && (s.threads[t].OverwriteReady? || s.threads[t].UpdateReady?)
    requires s.current == Expected(s.threads[t])
    ensures Inv(Apply(s, Step(t, id)))
  {
    assert ThreadOk(s, t);
    var desired, at := s.threads[t].desired, s.threads[t].at;
    assert at == |s.origins|;
    if s.threads[t].OverwriteReady? {
      CommitInv(s, t, desired, Overwrite(t, s.heap[desired].value));
    } else {
      CommitInv(s, t, desired, Update(t, s.threads[t].updater));
    }
  }

  lemma {:induction false} StepInv(s: State, a: Action)
    requires Inv(s) && Enabled(s, a)
    ensures Inv(Apply(s, a))
  {
    if !a.Step? {
      StartInv(s, a);
    } else {
      var thread := s.threads[a.t];
      if thread.OverwriteLoop? || thread.UpdateLoop? {
        if thread.OverwriteLoop? { OverwriteLoadInv(s, a.t, a.id); } else { UpdateLoadInv(s, a.t, a.id); }
      } else if s.current == thread.expected {
        SwapInv(s, a.t, a.id);
      } else {
        FailInv(s, a.t, a.id);
      }
    }
  }

  // ---------- runs ----------

  ghost predicate IsRun(states: seq<State>, actions: seq<Action>) {
    && |states| == |actions| + 1 && (exists id, value :: states[0] == Init(id, value))
    && forall i :: 0 <= i < |actions| ==>
      WellFormed(states[i]) && Enabled(states[i], actions[i]) && states[i + 1] == Apply(states[i], actions[i])
  }

  lemma {:induction false} RunInv(states: seq<State>, actions: seq<Action>, n: nat)
    requires IsRun(states, actions) && n < |states|
    ensures Inv(states[n])
  {
    if n == 0 {
      var id, value :| states[0] == Init(id, value);
      InitInv(id, value);
    } else {
      RunInv(states, actions, n - 1);
      StepInv(states[n - 1], actions[n - 1]);
    }
  }

  /** Published snapshots stay published, in the same order, and never change. */
  lemma {:induction false} PublishedOnce(s: State, a: Action)
    requires Inv(s) && Enabled(s, a)
    ensures var s' := Apply(s, a);
      && s.commits <= s'.commits && s.origins <= s'.origins
      && forall id :: id in s.commits ==> id in s.heap && id in s'.heap && s'.heap[id] == s.heap[id]
  {
    if a.Step? { assert ThreadOk(s, a.t); }
    forall id | id in s.commits ensures id in s.heap {
      var k :| 0 <= k < |s.commits| && s.commits[k] == id;
    }
  }

  lemma {:induction false} PublishedForever(states: seq<State>, actions: seq<Action>, m: nat, n: nat)
    requires IsRun(states, actions) && m <= n < |states|
    ensures states[m].commits <= states[n].commits && states[m].origins <= states[n].origins
    ensures forall id :: id in states[m].commits ==>
      id in states[m].heap && id in states[n].heap && states[n].heap[id] == states[m].heap[id]
  {
    RunInv(states, actions, m);
    if m < n {
      PublishedForever(states, actions, m, n - 1);
      RunInv(states, actions, n - 1);
      PublishedOnce(states[n - 1], actions[n - 1]);
      forall id | id in states[m].commits ensures id in states[n - 1].commits {
        var k :| 0 <= k < |states[m].commits| && states[m].commits[k] == id;
        assert states[n - 1].commits[k] == id;
      }
    } else {
      forall id | id in states[m].commits ensures id in states[m].heap {
        var k :| 0 <= k < |states[m].commits| && states[m].commits[k] == id;
      }
    }
  }

  /**
   In every run, the k-th commit has version k (modulo the width of size_t); no update is lost, because each commit is
   its updater applied to the commit right before it; a thread has failed at most as often as other threads have
   committed; and what an operation returned has been published.
   */
  lemma {:induction false} NoLostUpdate(states: seq<State>, actions: seq<Action>, n: nat, t: Tid)
    requires IsRun(states, actions) && n < |states|
    ensures var s := states[n];
      && |s.commits| == |s.origins| + 1
      && (forall k :: 0 <= k < |s.commits| ==> s.commits[k] in s.heap && s.heap[s.commits[k]].version == k % SIZE)
      && (forall k :: 0 <= k < |s.origins| ==> Follows(s.heap[s.commits[k]], s.origins[k], s.heap[s.commits[k + 1]]))
      && Fails(s, t) <= OthersCommits(s.origins, t)
      && (Of(s, t).Returned? ==> Of(s, t).snapshot in s.commits)
  {
    RunInv(states, actions, n);
    if t in states[n].threads { assert ThreadOk(states[n], t); }
  }
}
