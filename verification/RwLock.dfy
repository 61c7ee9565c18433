/** The read-write lock of src/kernel/pthread.cpp: who is admitted, over every run. A step is
    one section of a thread between taking and giving back the inner mutex. */
module RwLock {
  import opened Collections
  import opened Counting

  datatype Status = Out | WantsRead | WantsWrite | Reading | Writing

  datatype State = State(readers: nat, writers: nat, writeWaiters: int, threads: map<nat, Status>)

  datatype Action = RdLock(t: nat) | TryRdLock(t: nat) | WrLock(t: nat) | TryWrLock(t: nat) | Unlock(t: nat)

  /** pthread_rwlock_init, with all threads outside. */
  function Init(tids: set<nat>): State {
    State(0, 0, 0, map t | t in tids :: Out)
  }

  /** rdlock continues while it waits, wrlock likewise; only a holder unlocks. */
  predicate Enabled(s: State, a: Action) {
    && a.t in s.threads
    && match a
       case RdLock(t) => s.threads[t] in {Out, WantsRead}
       case WrLock(t) => s.threads[t] in {Out, WantsWrite}
       case TryRdLock(t) => s.threads[t] == Out
       case TryWrLock(t) => s.threads[t] == Out
       case Unlock(t) => s.threads[t] in {Reading, Writing}
  }

  function Now(s: State, t: nat, st: Status): State { s.(threads := s.threads[t := st]) }

  function Step(s: State, a: Action): State
    requires Enabled(s, a)
  {
    match a
    case RdLock(t) =>
      if s.writers > 0 || s.writeWaiters > 0 then Now(s, t, WantsRead)
      else Now(s.(readers := s.readers + 1), t, Reading)
    case TryRdLock(t) =>
      if s.writers > 0 || s.writeWaiters > 0 then s
      else Now(s.(readers := s.readers + 1), t, Reading)
    case WrLock(t) =>
      var waiters := if s.threads[t] == Out then s.writeWaiters + 1 else s.writeWaiters;
      if s.readers > 0 || s.writers > 0 then Now(s.(writeWaiters := waiters), t, WantsWrite)
      else Now(s.(writeWaiters := waiters - 1, writers := s.writers + 1), t, Writing)
    case TryWrLock(t) =>
      if s.readers > 0 || s.writers > 0 then s
      else Now(s.(writers := s.writers + 1), t, Writing)
    case Unlock(t) =>
      // The writer's unlock increments the counter again.
      if s.writers > 0 then Now(s.(writers := s.writers + 1), t, Out)
      else if s.readers > 0 then Now(s.(readers := s.readers - 1), t, Out)
      else Now(s, t, Out)
  }

  ghost predicate Trace(states: seq<State>, actions: seq<Action>) {
    && |states| == |actions| + 1
    && forall i {:trigger actions[i]} :: 0 <= i < |actions| ==>
         Enabled(states[i], actions[i]) && states[i + 1] == Step(states[i], actions[i])
  }

  predicate IsReading(st: Status) { st == Reading }

  predicate IsWriting(st: Status) { st == Writing }

  predicate IsWaiting(st: Status) { st == WantsWrite }

  /** `writers` is 0 before the first writer, 1 while it holds the lock, and 2 ever after. */
  ghost predicate Inv(s: State) {
    && s.readers == Count(s.threads, IsReading)
    && s.writeWaiters == Count(s.threads, IsWaiting)
    && s.writers <= 2
    && Count(s.threads, IsWriting) == (if s.writers == 1 then 1 else 0)
    && (s.writers > 0 ==> s.readers == 0)
  }

  lemma InitInv(tids: set<nat>)
    ensures Inv(Init(tids))
  {}

  lemma StepInv(s: State, a: Action)
    requires Inv(s) && Enabled(s, a)
    ensures Inv(Step(s, a))
  {
    var s' := Step(s, a);
    if s'.threads != s.threads {
      var st := s'.threads[a.t];
      assert s'.threads == s.threads[a.t := st];
      CountUpdate(s.threads, a.t, st, IsReading);
      CountUpdate(s.threads, a.t, st, IsWriting);
      CountUpdate(s.threads, a.t, st, IsWaiting);
      CountPositive(s.threads, IsReading, a.t);
      CountPositive(s.threads, IsWriting, a.t);
      CountPositive(s.threads, IsWaiting, a.t);
    } else {
      CountPositive(s.threads, IsWaiting, a.t);
    }
  }

  lemma {:induction false} RunInv(states: seq<State>, actions: seq<Action>, k: nat)
    requires Trace(states, actions) && Inv(states[0]) && k < |states|
    ensures Inv(states[k])
  {
    if k > 0 {
      RunInv(states, actions, k - 1);
      assert states[k] == Step(states[k - 1], actions[k - 1]);
      StepInv(states[k - 1], actions[k - 1]);
    }
  }

  /** In every run, a writer holds the lock alone. */
  lemma Exclusion(tids: set<nat>, states: seq<State>, actions: seq<Action>, k: nat, t: nat, u: nat)
    requires Trace(states, actions) && states[0] == Init(tids) && k < |states|
    requires t in states[k].threads && u in states[k].threads && t != u && states[k].threads[t] == Writing
    ensures states[k].threads[u] !in {Reading, Writing}
  {
    InitInv(tids);
    RunInv(states, actions, k);
    var s := states[k];
    CountPositive(s.threads, IsWriting, t);
    CountPositive(s.threads, IsReading, u);
    if s.threads[u] == Writing {
      assert {t, u} <= Those(s.threads, IsWriting);
      SubsetSize({t, u}, Those(s.threads, IsWriting));
    }
  }

  ghost predicate NobodyHolds(s: State) {
    forall t :: t in s.threads ==> s.threads[t] !in {Reading, Writing}
  }

  /** Once a writer has unlocked, nobody is ever admitted again. */
  lemma {:induction false} NeverAgain(states: seq<State>, actions: seq<Action>, i: nat, k: nat)
    requires Trace(states, actions) && Inv(states[0]) && i <= k < |states| && states[i].writers == 2
    ensures states[k].writers == 2 && NobodyHolds(states[k])
    decreases k
  {
    RunInv(states, actions, k);
    forall t | t in states[k].threads ensures states[k].writers == 2 ==> states[k].threads[t] !in {Reading, Writing} {
      CountPositive(states[k].threads, IsReading, t);
      CountPositive(states[k].threads, IsWriting, t);
    }
    if i < k {
      NeverAgain(states, actions, i, k - 1);
      assert states[k] == Step(states[k - 1], actions[k - 1]);
    }
  }

  /** Has a writer unlocked in the first k events? */
  ghost predicate WriterUnlocked(states: seq<State>, actions: seq<Action>, k: nat)
    requires Trace(states, actions) && k < |states|
  {
    exists i :: 0 <= i < k && UnlocksWriter(states[i], actions[i])
  }

  predicate UnlocksWriter(s: State, a: Action) {
    a.Unlock? && a.t in s.threads && s.threads[a.t] == Writing
  }

  lemma UnlockCounts(s: State, a: Action)
    requires Inv(s) && Enabled(s, a)
    ensures Step(s, a).writers == 2 <==> s.writers == 2 || UnlocksWriter(s, a)
  {
    CountPositive(s.threads, IsReading, a.t);
    CountPositive(s.threads, IsWriting, a.t);
  }

  lemma UnlockedNext(states: seq<State>, actions: seq<Action>, k: nat)
    requires Trace(states, actions) && 0 < k < |states|
    ensures WriterUnlocked(states, actions, k) <==>
              WriterUnlocked(states, actions, k - 1) || UnlocksWriter(states[k - 1], actions[k - 1])
  {}

  /** The writer count is 2 exactly from the first unlock of a writer on. */
  lemma {:induction false} WritersSince(states: seq<State>, actions: seq<Action>, k: nat)
    requires Trace(states, actions) && Inv(states[0]) && states[0].writers == 0 && k < |states|
    ensures states[k].writers == 2 <==> WriterUnlocked(states, actions, k)
    decreases k
  {
    if k > 0 {
      WritersSince(states, actions, k - 1);
      RunInv(states, actions, k - 1);
      assert states[k] == Step(states[k - 1], actions[k - 1]);
      UnlockCounts(states[k - 1], actions[k - 1]);
      UnlockedNext(states, actions, k);
    }
  }

  ghost predicate SomeThread(s: State, statuses: set<Status>) {
    exists u :: u in s.threads && s.threads[u] in statuses
  }

  /** The counters in terms of what the threads are doing. */
  lemma CountersSay(s: State)
    requires Inv(s)
    ensures s.writers == 1 <==> SomeThread(s, {Writing})
    ensures s.readers > 0 <==> SomeThread(s, {Reading})
    ensures s.writeWaiters > 0 <==> SomeThread(s, {WantsWrite})
  {
    CountSome(s.threads, IsWriting);
    CountSome(s.threads, IsReading);
    CountSome(s.threads, IsWaiting);
  }

  /** The threads after a call, when the lock is open for a reader or for a writer or not. */
  function Outcome(threads: map<nat, Status>, a: Action, reader: bool, writer: bool): map<nat, Status> {
    match a
    case RdLock(t) => threads[t := if reader then Reading else WantsRead]
    case TryRdLock(t) => if reader then threads[t := Reading] else threads
    case WrLock(t) => threads[t := if writer then Writing else WantsWrite]
    case TryWrLock(t) => if writer then threads[t := Writing] else threads
    case Unlock(t) => threads[t := Out]
  }

  /** In every run, what each call does is decided by what the other threads are doing and by
      whether a writer has ever unlocked. Readers wait for writers that write or want to, never
      for readers; writers wait for everybody inside. */
  lemma Admission(tids: set<nat>, states: seq<State>, actions: seq<Action>, k: nat, a: Action)
    requires Trace(states, actions) && states[0] == Init(tids) && k < |states| && Enabled(states[k], a)
    ensures Step(states[k], a).threads ==
              Outcome(states[k].threads, a,
                      !WriterUnlocked(states, actions, k) && !SomeThread(states[k], {Writing, WantsWrite}),
                      !WriterUnlocked(states, actions, k) && !SomeThread(states[k], {Reading, Writing}))
  {
    InitInv(tids);
    RunInv(states, actions, k);
    WritersSince(states, actions, k);
    CountersSay(states[k]);
  }

  /** In particular, a lock that nobody holds, with no writer waiting, admits a thread exactly
      when no writer has ever unlocked it. */
  lemma AdmitsIff(tids: set<nat>, states: seq<State>, actions: seq<Action>, k: nat, t: nat)
    requires Trace(states, actions) && states[0] == Init(tids) && k < |states|
    requires NobodyHolds(states[k]) && states[k].writeWaiters == 0
    requires t in states[k].threads && states[k].threads[t] == Out
    ensures Step(states[k], RdLock(t)).threads[t] == Reading <==> !WriterUnlocked(states, actions, k)
    ensures Step(states[k], WrLock(t)).threads[t] == Writing <==> !WriterUnlocked(states, actions, k)
  {
    InitInv(tids);
    RunInv(states, actions, k);
    CountersSay(states[k]);
    Admission(tids, states, actions, k, RdLock(t));
    Admission(tids, states, actions, k, WrLock(t));
  }

  predicate AllReading(s: State, ts: seq<nat>) {
    forall t :: t in ts ==> t in s.threads && s.threads[t] == Reading
  }

  /** Any number of threads that take a new lock for reading, one after the other, hold it
      together. */
  lemma {:induction false} ReadersShare(tids: set<nat>, ts: seq<nat>) returns (states: seq<State>, actions: seq<Action>)
    requires Distinct(ts) && forall t :: t in ts ==> t in tids
    ensures Trace(states, actions) && states[0] == Init(tids)
    ensures |actions| == |ts| && forall i :: 0 <= i < |ts| ==> actions[i] == RdLock(ts[i])
    ensures states[|ts|].readers == |ts| && AllReading(states[|ts|], ts)
    ensures states[|ts|].writers == 0 && states[|ts|].writeWaiters == 0
    ensures forall t :: t in tids && t !in ts ==> t in states[|ts|].threads && states[|ts|].threads[t] == Out
  {
    if ts == [] {
      states, actions := [Init(tids)], [];
    } else {
      var n := |ts| - 1;
      var before, first := ReadersShare(tids, ts[..n]);
      assert ts == ts[..n] + [ts[n]] && ts[n] !in ts[..n];
      var a := RdLock(ts[n]);
      states, actions := before + [Step(before[n], a)], first + [a];
    }
  }

  /** Without writers every rdlock is admitted, and its unlock makes room again. */
  lemma UnlockStep(s: State, t: nat)
    requires Inv(s) && t in s.threads && s.threads[t] in {Reading, Writing}
    ensures var s' := Step(s, Unlock(t));
            if s.threads[t] == Writing then s'.writers == 2 && NobodyHolds(s')
            else s'.writers == s.writers == 0 && s'.readers == s.readers - 1
  {
    CountPositive(s.threads, IsReading, t);
    CountPositive(s.threads, IsWriting, t);
    StepInv(s, Unlock(t));
    var s' := Step(s, Unlock(t));
    forall u | u in s'.threads ensures s'.writers == 2 ==> s'.threads[u] !in {Reading, Writing} {
      CountPositive(s'.threads, IsReading, u);
      CountPositive(s'.threads, IsWriting, u);
    }
  }

  /** Two events are enough: one thread takes the lock for writing and gives it back. */
  lemma OneWriterIsTheLast() returns (states: seq<State>, actions: seq<Action>)
    ensures Trace(states, actions) && states[0] == Init({1}) && actions == [WrLock(1), Unlock(1)]
    ensures states[2].writers == 2 && 1 in states[2].threads && states[2].threads[1] == Out
  {
    actions := [WrLock(1), Unlock(1)];
    var s0 := Init({1});
    var s1 := Step(s0, WrLock(1));
    states := [s0, s1, Step(s1, Unlock(1))];
  }
}
