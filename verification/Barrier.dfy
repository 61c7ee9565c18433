/** pthread_barrier_wait over the mutex and the condition variable of src/kernel/pthread.cpp.
    A step is one C statement of one thread; any thread may take the next step. */
module Barrier {
  import opened Collections
  import opened Counting

  /** Where a thread is: the statement it executes next. */
  datatype Pc =
    | Idle
    // pthread_mutex_lock(&barrier->lock)
    | EntryCas | EntryOwner | EntryCount
    | ReadPhase | Arrive | TestLast
    // the last thread to arrive
    | ResetCurrent | NextPhase | Broadcast | SerialUnlockOwner | SerialUnlock | SerialReturn
    // the others: while (barrier->_phase == my_phase)
    | TestPhase
    // pthread_cond_wait
    | SetMutex | ReadSignal | AddWaiter | WaitUnlockOwner | WaitUnlock | Spin | DropWaiter
    | WaitCas | WaitOwner | WaitCount
    // after the loop
    | UnlockOwner | Unlock | Return

  const SERIAL_THREAD: int := -1

  /** A thread with its local variables my_phase and my_signal. */
  datatype Thread = Thread(pc: Pc, myPhase: nat, mySignal: int)

  /** A finished call: who, in which phase, and what it returned. */
  datatype Call = Call(tid: nat, phase: nat, result: int)

  /** The barrier, its lock and condition variable, and every thread. The last three fields
      record history: who won the lock, how many threads arrived in each phase, and which
      calls have returned. */
  datatype State = State(
    count: nat, current: nat, phase: nat,
    locked: bool, owner: nat, recursiveCount: nat,
    waiters: int, signalCount: int,
    threads: map<nat, Thread>,
    holder: nat, arrivals: seq<nat>, log: seq<Call>)

  /** pthread_barrier_init, with all threads outside. */
  function Init(count: nat, tids: set<nat>): State {
    State(count, 0, 0, false, 0, 0, 0, 0, map t | t in tids :: Thread(Idle, 0, 0), 0, [0], [])
  }

  /** The thread after its next statement. A failed atomic_cas yields and tries again. */
  function Local(s: State, th: Thread): Thread {
    match th.pc
    case Idle => th.(pc := EntryCas)
    case EntryCas => if s.locked then th else th.(pc := EntryOwner)
    case EntryOwner => th.(pc := EntryCount)
    case EntryCount => th.(pc := ReadPhase)
    case ReadPhase => th.(pc := Arrive, myPhase := s.phase)
    case Arrive => th.(pc := TestLast)
    case TestLast => th.(pc := if s.current >= s.count then ResetCurrent else TestPhase)
    case ResetCurrent => th.(pc := NextPhase)
    case NextPhase => th.(pc := Broadcast)
    case Broadcast => th.(pc := SerialUnlockOwner)
    case SerialUnlockOwner => th.(pc := SerialUnlock)
    case SerialUnlock => th.(pc := SerialReturn)
    case SerialReturn => th.(pc := Idle)
    case TestPhase => th.(pc := if s.phase == th.myPhase then SetMutex else UnlockOwner)
    case SetMutex => th.(pc := ReadSignal)
    case ReadSignal => th.(pc := AddWaiter, mySignal := s.signalCount)
    case AddWaiter => th.(pc := WaitUnlockOwner)
    case WaitUnlockOwner => th.(pc := WaitUnlock)
    case WaitUnlock => th.(pc := Spin)
    case Spin => if s.signalCount == th.mySignal then th else th.(pc := DropWaiter)
    case DropWaiter => th.(pc := WaitCas)
    case WaitCas => if s.locked then th else th.(pc := WaitOwner)
    case WaitOwner => th.(pc := WaitCount)
    case WaitCount => th.(pc := TestPhase)
    case UnlockOwner => th.(pc := Unlock)
    case Unlock => th.(pc := Return)
    case Return => th.(pc := Idle)
  }

  /** What the statement does to the barrier, its lock and its condition variable. */
  function Shared(s: State, t: nat): State
    requires t in s.threads
  {
    match s.threads[t].pc
    case EntryCas | WaitCas => if s.locked then s else s.(locked := true, holder := t)
    case EntryOwner | WaitOwner => s.(owner := t)
    case EntryCount | WaitCount => s.(recursiveCount := 1)
    case Arrive => s.(current := s.current + 1, arrivals := Bump(s.arrivals))
    case ResetCurrent => s.(current := 0)
    case NextPhase => s.(phase := s.phase + 1, arrivals := s.arrivals + [0])
    case Broadcast => s.(signalCount := s.signalCount + s.waiters)
    case AddWaiter => s.(waiters := s.waiters + 1)
    case DropWaiter => s.(waiters := s.waiters - 1)
    case SerialUnlockOwner | WaitUnlockOwner | UnlockOwner => s.(owner := 0)
    case SerialUnlock | WaitUnlock | Unlock => s.(locked := false, holder := 0)
    case SerialReturn => s.(log := s.log + [Call(t, s.threads[t].myPhase, SERIAL_THREAD)])
    case Return => s.(log := s.log + [Call(t, s.threads[t].myPhase, 0)])
    case _ => s
  }

  /** One statement of thread t. */
  function Step(s: State, t: nat): State
    requires t in s.threads
  {
    Shared(s, t).(threads := s.threads[t := Local(s, s.threads[t])])
  }

  function Bump(a: seq<nat>): seq<nat> {
    if a == [] then a else a[|a| - 1 := a[|a| - 1] + 1]
  }

  /** The state after the threads named by a schedule have each taken their step. */
  function Run(s: State, schedule: seq<nat>): (r: State)
    requires forall t :: t in schedule ==> t in s.threads
    ensures r.threads.Keys == s.threads.Keys
    decreases |schedule|
  {
    if schedule == [] then s
    else
      StepThreads(s, schedule[0]);
      Run(Step(s, schedule[0]), schedule[1..])
  }

  lemma StepThreads(s: State, t: nat)
    requires t in s.threads
    ensures Step(s, t).threads.Keys == s.threads.Keys && Step(s, t).count == s.count
  {}

  // ---- counting threads ----

  /** Threads counted in cond->waiters. */
  predicate Waiting(th: Thread) { th.pc in {WaitUnlockOwner, WaitUnlock, Spin, DropWaiter} }

  /** Threads that have arrived and not yet returned. */
  predicate Arrived(th: Thread) { th.pc !in {Idle, EntryCas, EntryOwner, EntryCount, ReadPhase, Arrive} }

  predicate Serial(th: Thread) {
    th.pc in {ResetCurrent, NextPhase, Broadcast, SerialUnlockOwner, SerialUnlock, SerialReturn}
  }

  ghost function Pending(p: nat): Thread -> bool { th => Arrived(th) && th.myPhase == p }

  ghost function PendingSerial(p: nat): Thread -> bool { th => Serial(th) && th.myPhase == p }

  function Returned(log: seq<Call>, p: nat): nat {
    if log == [] then 0
    else Returned(log[..|log| - 1], p) + if log[|log| - 1].phase == p then 1 else 0
  }

  function ReturnedSerial(log: seq<Call>, p: nat): nat {
    if log == [] then 0
    else ReturnedSerial(log[..|log| - 1], p) +
         if log[|log| - 1].phase == p && log[|log| - 1].result == SERIAL_THREAD then 1 else 0
  }

  // ---- the invariant ----

  /** Statements between winning the lock and giving it back. */
  predicate InLock(pc: Pc) {
    pc !in {Idle, EntryCas, SerialReturn, Spin, DropWaiter, WaitCas, Return}
  }

  /** The statement of the thread that holds the lock. */
  function HolderPc(s: State): Pc {
    if s.holder in s.threads then s.threads[s.holder].pc else Idle
  }

  ghost predicate LockOk(s: State) {
    && (s.locked <==> s.holder != 0)
    && (s.holder != 0 ==> s.holder in s.threads)
    && (forall t :: t in s.threads ==> t >= 1 && (InLock(s.threads[t].pc) <==> t == s.holder))
  }

  ghost predicate CountersOk(s: State) {
    var h := HolderPc(s);
    && s.count >= 1 && |s.arrivals| == s.phase + 1
    && (forall p :: 0 <= p < s.phase ==> s.arrivals[p] == s.count)
    && s.arrivals[s.phase] == (if h == NextPhase then s.count else s.current)
    && (match h
        case TestLast => 1 <= s.current <= s.count
        case ResetCurrent => s.current == s.count
        case NextPhase | Broadcast => s.current == 0
        case _ => s.current < s.count)
  }

  /** What a thread may rely on at each statement. */
  ghost predicate ThreadOk(s: State, th: Thread) {
    match th.pc
    case Arrive | TestLast | ResetCurrent | NextPhase => th.myPhase == s.phase
    case SetMutex | ReadSignal => th.myPhase == s.phase
    case AddWaiter => th.myPhase == s.phase && th.mySignal == s.signalCount
    case WaitUnlockOwner | WaitUnlock | Spin =>
      if th.myPhase == s.phase then th.mySignal == s.signalCount
      else th.myPhase < s.phase && th.mySignal <= s.signalCount
           && (HolderPc(s) == Broadcast || th.mySignal < s.signalCount)
    case DropWaiter | WaitCas | WaitOwner | WaitCount | UnlockOwner | Unlock | Return => th.myPhase < s.phase
    case Broadcast | SerialUnlockOwner | SerialUnlock | SerialReturn => th.myPhase < s.phase
    case TestPhase => th.myPhase <= s.phase
    case _ => true
  }

  ghost predicate TallyOk(s: State) {
    && |s.arrivals| == s.phase + 1
    && s.waiters == Count(s.threads, Waiting)
    && (forall p: nat {:trigger Pending(p)} :: p <= s.phase ==>
          Returned(s.log, p) + Count(s.threads, Pending(p)) == s.arrivals[p])
    && (forall p: nat {:trigger PendingSerial(p)} :: p <= s.phase ==>
          ReturnedSerial(s.log, p) + Count(s.threads, PendingSerial(p)) ==
          if p < s.phase || HolderPc(s) in {ResetCurrent, NextPhase} then 1 else 0)
  }

  ghost predicate LogOk(s: State) {
    forall i :: 0 <= i < |s.log| ==> s.log[i].phase < s.phase
  }

  ghost predicate Inv(s: State) {
    && LockOk(s) && CountersOk(s) && LogOk(s) && TallyOk(s)
    && (forall t :: t in s.threads ==> ThreadOk(s, s.threads[t]))
  }

  lemma InitInv(count: nat, tids: set<nat>)
    requires count >= 1 && forall t :: t in tids ==> t >= 1
    ensures Inv(Init(count, tids))
  {}

  /** A step changes no other thread. */
  lemma ThreadUpdated(s: State, t: nat)
    requires t in s.threads
    ensures t in Step(s, t).threads && Step(s, t).threads == s.threads[t := Step(s, t).threads[t]]
  {}

  /** Who holds the lock after a step. */
  lemma LockMoves(s: State, t: nat)
    requires LockOk(s) && t in s.threads
    ensures var s', th := Step(s, t), s.threads[t];
            && s'.locked == (s'.holder != 0)
            && s'.holder == (if th.pc in {EntryCas, WaitCas} && !s.locked then t
                             else if th.pc in {SerialUnlock, WaitUnlock, Unlock} then 0 else s.holder)
  {}

  lemma LockKept(s: State, t: nat)
    requires Inv(s) && t in s.threads
    ensures LockOk(Step(s, t))
  {
    LockMoves(s, t);
    ThreadUpdated(s, t);
    assert InLock(Step(s, t).threads[t].pc) <==> t == Step(s, t).holder;
  }

  lemma HolderMoves(s: State, t: nat)
    requires Inv(s) && t in s.threads
    ensures var s' := Step(s, t);
            HolderPc(s') ==
              if s'.holder == t && t in s'.threads then s'.threads[t].pc
              else if s.holder == t then Idle else HolderPc(s)
  {
    LockMoves(s, t);
    ThreadUpdated(s, t);
  }

  /** What a statement does to the counters. */
  ghost predicate CountersMove(s: State, s': State, pc: Pc) {
    && s'.count == s.count
    && s'.current == (if pc == Arrive then s.current + 1 else if pc == ResetCurrent then 0 else s.current)
    && s'.phase == s.phase + One(pc == NextPhase)
    && s'.arrivals == (if pc == Arrive then Bump(s.arrivals)
                       else if pc == NextPhase then s.arrivals + [0] else s.arrivals)
  }

  lemma CountersStep(s: State, t: nat)
    requires t in s.threads
    ensures CountersMove(s, Step(s, t), s.threads[t].pc)
  {}

  /** The counters after the holder's statement `pc`, when its next one is `next`. */
  lemma HolderCounters(s: State, s': State, pc: Pc, next: Pc)
    requires CountersOk(s) && CountersMove(s, s', pc) && HolderPc(s) == pc && HolderPc(s') == next
    requires pc == TestLast ==> next == if s.current >= s.count then ResetCurrent else TestPhase
    requires pc == ResetCurrent ==> next == NextPhase
    requires pc == NextPhase ==> next == Broadcast
    requires pc == Arrive <==> next == TestLast
    requires pc !in {TestLast, ResetCurrent, NextPhase} ==> next !in {ResetCurrent, NextPhase, Broadcast}
    ensures CountersOk(s')
  {}

  lemma CountersKept(s: State, t: nat)
    requires Inv(s) && t in s.threads
    ensures CountersOk(Step(s, t)) && s.phase <= Step(s, t).phase <= s.phase + 1
  {
    HolderMoves(s, t);
    LockMoves(s, t);
    CountersStep(s, t);
    if s.holder == t {
      HolderCounters(s, Step(s, t), s.threads[t].pc, HolderPc(Step(s, t)));
    }
  }

  /** While the serial thread is about to broadcast, nobody has arrived in the new phase yet. */
  lemma NobodyNewYet(s: State, u: nat)
    requires Inv(s) && HolderPc(s) == Broadcast && u in s.threads && Arrived(s.threads[u])
    ensures s.threads[u].myPhase != s.phase
  {
    CountPositive(s.threads, Pending(s.phase), u);
  }

  lemma WaiterCounted(s: State, u: nat)
    requires Inv(s) && u in s.threads && Waiting(s.threads[u])
    ensures s.waiters >= 1
  {
    CountPositive(s.threads, Waiting, u);
  }

  lemma OthersKept(s: State, t: nat, u: nat)
    requires Inv(s) && t in s.threads && u in s.threads && u != t
    ensures ThreadOk(Step(s, t), s.threads[u])
  {
    HolderMoves(s, t);
    var th, uh := s.threads[t], s.threads[u];
    assert ThreadOk(s, th) && ThreadOk(s, uh);
    if th.pc == Broadcast {
      if Arrived(uh) { NobodyNewYet(s, u); }
      if Waiting(uh) { WaiterCounted(s, u); }
    }
  }

  lemma SelfKept(s: State, t: nat)
    requires Inv(s) && t in s.threads
    ensures ThreadOk(Step(s, t), Step(s, t).threads[t])
  {
    HolderMoves(s, t);
    var th := s.threads[t];
    assert ThreadOk(s, th);
    if HolderPc(s) == Broadcast && Arrived(th) { NobodyNewYet(s, t); }
  }

  lemma {:induction false} NotReturnedYet(log: seq<Call>, p: nat)
    requires forall i :: 0 <= i < |log| ==> log[i].phase < p
    ensures Returned(log, p) == 0 && ReturnedSerial(log, p) == 0
  {
    if log != [] { NotReturnedYet(log[..|log| - 1], p); }
  }

  lemma ReturnedAppend(log: seq<Call>, c: Call, p: nat)
    ensures Returned(log + [c], p) == Returned(log, p) + if c.phase == p then 1 else 0
    ensures ReturnedSerial(log + [c], p) ==
              ReturnedSerial(log, p) + if c.phase == p && c.result == SERIAL_THREAD then 1 else 0
  {}

  lemma WaitersKept(s: State, t: nat)
    requires Inv(s) && t in s.threads
    ensures Step(s, t).waiters == Count(Step(s, t).threads, Waiting)
  {
    ThreadUpdated(s, t);
    CountUpdate(s.threads, t, Step(s, t).threads[t], Waiting);
  }

  function One(b: bool): nat { if b then 1 else 0 }

  lemma LogMoves(s: State, t: nat)
    requires t in s.threads
    ensures var th := s.threads[t];
            Step(s, t).log ==
              if th.pc == Return then s.log + [Call(t, th.myPhase, 0)]
              else if th.pc == SerialReturn then s.log + [Call(t, th.myPhase, SERIAL_THREAD)]
              else s.log
  {}

  /** What a step adds to the calls that have returned. */
  lemma LogStep(s: State, t: nat, p: nat)
    requires t in s.threads
    ensures var th, log := s.threads[t], Step(s, t).log;
            && Returned(log, p) == Returned(s.log, p) + One(th.pc in {Return, SerialReturn} && th.myPhase == p)
            && ReturnedSerial(log, p) == ReturnedSerial(s.log, p) + One(th.pc == SerialReturn && th.myPhase == p)
  {
    LogMoves(s, t);
    ReturnedAppend(s.log, Call(t, s.threads[t].myPhase, 0), p);
    ReturnedAppend(s.log, Call(t, s.threads[t].myPhase, SERIAL_THREAD), p);
  }

  lemma PendingStep(s: State, t: nat, p: nat)
    requires t in s.threads
    ensures var th := s.threads[t];
            Count(Step(s, t).threads, Pending(p)) ==
              Count(s.threads, Pending(p)) + One(th.pc == Arrive && th.myPhase == p)
              - One(th.pc in {Return, SerialReturn} && th.myPhase == p)
  {
    ThreadUpdated(s, t);
    CountUpdate(s.threads, t, Step(s, t).threads[t], Pending(p));
  }

  lemma PendingSerialStep(s: State, t: nat, p: nat)
    requires t in s.threads
    ensures var th := s.threads[t];
            Count(Step(s, t).threads, PendingSerial(p)) ==
              Count(s.threads, PendingSerial(p))
              + One(th.pc == TestLast && s.current >= s.count && th.myPhase == p)
              - One(th.pc == SerialReturn && th.myPhase == p)
  {
    ThreadUpdated(s, t);
    CountUpdate(s.threads, t, Step(s, t).threads[t], PendingSerial(p));
  }

  lemma ArrivalsAt(s: State, s': State, pc: Pc, p: nat)
    requires |s.arrivals| == s.phase + 1 && p <= s.phase && CountersMove(s, s', pc)
    ensures p < |s'.arrivals| && s'.arrivals[p] == s.arrivals[p] + One(pc == Arrive && s.phase == p)
  {}

  lemma PhaseTally(s: State, t: nat, p: nat)
    requires Inv(s) && t in s.threads && p <= s.phase
    ensures |Step(s, t).arrivals| > p
    ensures Returned(Step(s, t).log, p) + Count(Step(s, t).threads, Pending(p)) == Step(s, t).arrivals[p]
  {
    var th := s.threads[t];
    assert ThreadOk(s, th);
    LogStep(s, t, p);
    PendingStep(s, t, p);
    CountersStep(s, t);
    ArrivalsAt(s, Step(s, t), th.pc, p);
  }

  lemma SerialTally(s: State, t: nat, p: nat)
    requires Inv(s) && t in s.threads && p <= s.phase
    ensures ReturnedSerial(Step(s, t).log, p) + Count(Step(s, t).threads, PendingSerial(p)) ==
              One(p < Step(s, t).phase || HolderPc(Step(s, t)) in {ResetCurrent, NextPhase})
  {
    var th := s.threads[t];
    assert ThreadOk(s, th);
    LogStep(s, t, p);
    PendingSerialStep(s, t, p);
    SerialDue(s, t, p);
  }

  /** A phase gets its serial thread when its last arrival is recognised. */
  lemma SerialDue(s: State, t: nat, p: nat)
    requires Inv(s) && t in s.threads && p <= s.phase
    ensures var th := s.threads[t];
            One(p < Step(s, t).phase || HolderPc(Step(s, t)) in {ResetCurrent, NextPhase}) ==
              One(p < s.phase || HolderPc(s) in {ResetCurrent, NextPhase})
              + One(th.pc == TestLast && s.current >= s.count && th.myPhase == p)
  {
    assert ThreadOk(s, s.threads[t]);
    HolderMoves(s, t);
  }

  /** A phase that has just begun. */
  lemma NewPhaseTally(s: State, t: nat)
    requires Inv(s) && t in s.threads && s.threads[t].pc == NextPhase
    ensures var s' := Step(s, t);
            && Returned(s'.log, s'.phase) + Count(s'.threads, Pending(s'.phase)) == 0
            && ReturnedSerial(s'.log, s'.phase) + Count(s'.threads, PendingSerial(s'.phase)) == 0
  {
    var s' := Step(s, t);
    NotReturnedYet(s.log, s'.phase);
    forall u | u in s'.threads ensures !Pending(s'.phase)(s'.threads[u]) && !PendingSerial(s'.phase)(s'.threads[u]) {
      assert ThreadOk(s, s.threads[u]);
    }
    CountNone(s'.threads, Pending(s'.phase));
    CountNone(s'.threads, PendingSerial(s'.phase));
  }

  lemma LogKept(s: State, t: nat)
    requires Inv(s) && t in s.threads
    ensures LogOk(Step(s, t))
  {
    assert ThreadOk(s, s.threads[t]);
    LogMoves(s, t);
    CountersStep(s, t);
  }

  lemma TallyKept(s: State, t: nat)
    requires Inv(s) && t in s.threads
    ensures TallyOk(Step(s, t))
  {
    var s' := Step(s, t);
    CountersKept(s, t);
    WaitersKept(s, t);
    forall p: nat | p <= s'.phase
      ensures Returned(s'.log, p) + Count(s'.threads, Pending(p)) == s'.arrivals[p]
      ensures ReturnedSerial(s'.log, p) + Count(s'.threads, PendingSerial(p)) ==
                if p < s'.phase || HolderPc(s') in {ResetCurrent, NextPhase} then 1 else 0
    {
      if p <= s.phase {
        PhaseTally(s, t, p);
        SerialTally(s, t, p);
      } else {
        NewPhaseTally(s, t);
      }
    }
  }

  /** Every statement of every thread keeps the invariant. */
  lemma StepInv(s: State, t: nat)
    requires Inv(s) && t in s.threads
    ensures Inv(Step(s, t))
  {
    LockKept(s, t);
    CountersKept(s, t);
    LogKept(s, t);
    TallyKept(s, t);
    var s' := Step(s, t);
    forall u | u in s'.threads ensures ThreadOk(s', s'.threads[u]) {
      ThreadUpdated(s, t);
      if u == t { SelfKept(s, t); } else { OthersKept(s, t, u); }
    }
  }

  lemma {:induction false} RunInv(s: State, schedule: seq<nat>)
    requires Inv(s) && forall t :: t in schedule ==> t in s.threads
    ensures Inv(Run(s, schedule)) && Run(s, schedule).count == s.count
    decreases |schedule|
  {
    if schedule != [] {
      StepInv(s, schedule[0]);
      StepThreads(s, schedule[0]);
      RunInv(Step(s, schedule[0]), schedule[1..]);
    }
  }

  // ---- what the barrier is for ----

  /** No call returns from a phase before `count` threads have arrived in it, whatever the
      interleaving and however often the barrier is reused. */
  lemma NoEarlyReturn(count: nat, tids: set<nat>, schedule: seq<nat>, i: nat)
    requires count >= 1 && forall t :: t in tids ==> t >= 1
    requires forall t :: t in schedule ==> t in tids
    ensures var s := Run(Init(count, tids), schedule);
            i < |s.log| ==> s.log[i].phase < |s.arrivals| && s.arrivals[s.log[i].phase] == count
  {
    InitInv(count, tids);
    RunInv(Init(count, tids), schedule);
  }

  lemma SerialReturns(s: State, p: nat)
    requires Inv(s) && p <= s.phase
    ensures ReturnedSerial(s.log, p) <= 1 && Returned(s.log, p) <= s.count
    ensures p < s.phase && (forall t :: t in s.threads ==> !Pending(p)(s.threads[t])) ==>
              ReturnedSerial(s.log, p) == 1 && Returned(s.log, p) == s.count
  {
    var a, b := Pending(p), PendingSerial(p);
    if p < s.phase && forall t :: t in s.threads ==> !a(s.threads[t]) {
      CountNone(s.threads, a);
      CountNone(s.threads, b);
    }
  }

  /** In every phase at most one call returns PTHREAD_BARRIER_SERIAL_THREAD and at most
      `count` return at all; once all callers of a completed phase have returned, exactly
      one and exactly `count` have. */
  lemma ExactlyOneSerial(count: nat, tids: set<nat>, schedule: seq<nat>, p: nat)
    requires count >= 1 && forall t :: t in tids ==> t >= 1
    requires forall t :: t in schedule ==> t in tids
    ensures var s := Run(Init(count, tids), schedule);
            p <= s.phase ==>
              && ReturnedSerial(s.log, p) <= 1 && Returned(s.log, p) <= count
              && (p < s.phase && (forall t :: t in s.threads ==> !Pending(p)(s.threads[t])) ==>
                    ReturnedSerial(s.log, p) == 1 && Returned(s.log, p) == count)
  {
    InitInv(count, tids);
    RunInv(Init(count, tids), schedule);
    var s := Run(Init(count, tids), schedule);
    if p <= s.phase { SerialReturns(s, p); }
  }

  /** A thread that still sees the signal count it recorded, with the lock free, waits for
      the current phase: its wake-up is not lost. */
  lemma NoLostWakeup(count: nat, tids: set<nat>, schedule: seq<nat>, t: nat)
    requires count >= 1 && forall t :: t in tids ==> t >= 1
    requires forall t :: t in schedule ==> t in tids
    ensures var s := Run(Init(count, tids), schedule);
            t in s.threads && s.threads[t].pc == Spin && !s.locked ==>
              (s.threads[t].mySignal == s.signalCount <==> s.threads[t].myPhase == s.phase)
  {
    InitInv(count, tids);
    RunInv(Init(count, tids), schedule);
    var s := Run(Init(count, tids), schedule);
    if t in s.threads { assert ThreadOk(s, s.threads[t]); }
  }

  /** A caller becomes the serial thread if and only if it is the last of `count` to arrive. */
  lemma LastIsSerial(s: State, t: nat)
    requires Inv(s) && t in s.threads && s.threads[t].pc == Arrive
    ensures var s' := Step(s, t);
            && t in s'.threads && s'.threads[t].pc == TestLast
            && s'.arrivals[s.phase] == s.arrivals[s.phase] + 1
            && Local(s', s'.threads[t]).pc == (if s'.arrivals[s.phase] == s.count then ResetCurrent else TestPhase)
  {
    assert t == s.holder;
    CountersKept(s, t);
    CountersStep(s, t);
    ArrivalsAt(s, Step(s, t), Arrive, s.phase);
  }

  /** Only the broadcast changes the signal count, by one for every thread that waits. */
  lemma Wakes(s: State, t: nat)
    requires Inv(s) && t in s.threads
    ensures Step(s, t).signalCount ==
              s.signalCount + if s.threads[t].pc == Broadcast then Count(s.threads, Waiting) else 0
  {}

  /** What the owner field of the mutex says: who holds the lock, or 0 just after it has been
      taken, just before it is given back, and when it is free. */
  ghost predicate OwnerOk(s: State) {
    && s.owner == (if HolderPc(s) in {EntryOwner, WaitOwner, SerialUnlock, WaitUnlock, Unlock} then 0 else s.holder)
    && (s.holder != 0 && HolderPc(s) !in {EntryOwner, EntryCount, WaitOwner, WaitCount} ==> s.recursiveCount == 1)
  }

  lemma OwnerKept(s: State, t: nat)
    requires Inv(s) && OwnerOk(s) && t in s.threads
    ensures OwnerOk(Step(s, t))
  {
    LockMoves(s, t);
    HolderMoves(s, t);
  }

  /** In every reachable state. */
  lemma {:induction false} OwnerRun(s: State, schedule: seq<nat>)
    requires Inv(s) && OwnerOk(s) && forall t :: t in schedule ==> t in s.threads
    ensures OwnerOk(Run(s, schedule))
    decreases |schedule|
  {
    if schedule != [] {
      StepInv(s, schedule[0]);
      OwnerKept(s, schedule[0]);
      StepThreads(s, schedule[0]);
      OwnerRun(Step(s, schedule[0]), schedule[1..]);
    }
  }

  /** Statements a thread has at most left before it gives the lock back. */
  function LockRank(pc: Pc): nat {
    match pc
    case EntryOwner => 14 case EntryCount => 13 case ReadPhase => 12 case Arrive => 11 case TestLast => 10
    case ResetCurrent => 5 case NextPhase => 4 case Broadcast => 3 case SerialUnlockOwner => 2 case SerialUnlock => 1
    case WaitOwner => 8 case WaitCount => 7 case TestPhase => 6
    case SetMutex => 5 case ReadSignal => 4 case AddWaiter => 3 case WaitUnlockOwner => 2 case WaitUnlock => 1
    case UnlockOwner => 2 case Unlock => 1
    case _ => 0
  }

  lemma HolderProgress(s: State)
    requires Inv(s) && s.locked
    ensures var s' := Step(s, s.holder);
            s'.holder == 0 || (s'.holder == s.holder && LockRank(HolderPc(s')) < LockRank(HolderPc(s)))
  {}

  /** Statements a thread whose phase is over has left in its call. */
  function CallRank(pc: Pc): nat {
    match pc
    case Broadcast => 4 case SerialUnlockOwner => 3 case SerialUnlock => 2 case SerialReturn => 1
    case WaitUnlockOwner => 11 case WaitUnlock => 10 case Spin => 9 case DropWaiter => 8
    case WaitCas => 7 case WaitOwner => 6 case WaitCount => 5 case TestPhase => 4
    case UnlockOwner => 3 case Unlock => 2 case Return => 1
    case _ => 0
  }

  lemma CallProgress(s: State, t: nat)
    requires Inv(s) && t in s.threads && Arrived(s.threads[t]) && s.threads[t].myPhase < s.phase
    requires !s.locked || s.holder == t
    ensures var s', th := Step(s, t), s.threads[t];
            if s'.threads[t].pc == Idle
            then exists result :: s'.log == s.log + [Call(t, th.myPhase, result)]
            else Arrived(s'.threads[t]) && s'.threads[t].myPhase == th.myPhase < s'.phase &&
                 CallRank(s'.threads[t].pc) < CallRank(th.pc)
  {
    assert ThreadOk(s, s.threads[t]);
  }

  ghost predicate HasReturned(s: State, t: nat, phase: nat) {
    exists result :: Call(t, phase, result) in s.log
  }

  /** Statements until thread t can go on. */
  function Delay(s: State, t: nat): nat {
    if s.locked && s.holder != t then LockRank(HolderPc(s)) + 1 else 0
  }

  /** The holder of the lock gets on, and does nothing to t. */
  lemma OtherProgress(s: State, t: nat)
    requires Inv(s) && t in s.threads && s.locked && s.holder != t
    ensures var s' := Step(s, s.holder);
            s'.threads[t] == s.threads[t] && s'.phase >= s.phase && Delay(s', t) < Delay(s, t)
  {
    HolderProgress(s);
    CountersStep(s, s.holder);
    ThreadUpdated(s, s.holder);
    LockMoves(s, s.holder);
  }

  lemma RunFirst(s: State, u: nat, rest: seq<nat>)
    requires u in s.threads && forall t :: t in rest ==> t in Step(s, u).threads
    ensures forall t :: t in rest ==> t in s.threads
    ensures Run(s, [u] + rest) == Run(Step(s, u), rest)
  {
    StepThreads(s, u);
    assert ([u] + rest)[1..] == rest;
  }

  lemma ReturnsNow(s: State, t: nat)
    requires t in s.threads && exists result :: Step(s, t).log == s.log + [Call(t, s.threads[t].myPhase, result)]
    ensures HasReturned(Run(s, [t]), t, s.threads[t].myPhase)
  {
    var s' := Step(s, t);
    assert Run(s, [t]) == Run(s', [t][1..]) == s';
    assert s'.log[|s.log|] in s'.log;
  }

  /** The step of whoever can go on, the holder of the lock or t: it ends the call of t or
      brings its end closer. */
  lemma OneStep(s: State, t: nat) returns (u: nat)
    requires Inv(s) && t in s.threads && Arrived(s.threads[t]) && s.threads[t].myPhase < s.phase
    ensures u in s.threads && Inv(Step(s, u)) && t in Step(s, u).threads
    ensures var th, th', phase' := s.threads[t], Step(s, u).threads[t], Step(s, u).phase;
            if th'.pc == Idle then u == t && HasReturned(Run(s, [t]), t, th.myPhase)
            else
              && Arrived(th') && th'.myPhase == th.myPhase < phase' && CallRank(th'.pc) <= CallRank(th.pc)
              && (CallRank(th'.pc) == CallRank(th.pc) ==> Delay(Step(s, u), t) < Delay(s, t))
  {
    u := if s.locked && s.holder != t then s.holder else t;
    StepInv(s, u);
    StepThreads(s, u);
    if u != t {
      OtherProgress(s, t);
    } else {
      CallProgress(s, t);
      if Step(s, t).threads[t].pc == Idle { ReturnsNow(s, t); }
    }
  }

  /** No deadlock and no starvation by lost signals: from every reachable state, a thread
      whose phase is over returns once the lock holders and it are scheduled. */
  lemma {:induction false} CanReturn(s: State, t: nat) returns (schedule: seq<nat>)
    requires Inv(s) && t in s.threads && Arrived(s.threads[t]) && s.threads[t].myPhase < s.phase
    ensures forall u :: u in schedule ==> u in s.threads
    ensures HasReturned(Run(s, schedule), t, s.threads[t].myPhase)
    decreases CallRank(s.threads[t].pc), Delay(s, t)
  {
    var u := OneStep(s, t);
    if Step(s, u).threads[t].pc == Idle { return [t]; }
    var rest := CanReturn(Step(s, u), t);
    RunFirst(s, u, rest);
    schedule := [u] + rest;
  }

  // ---- a phase can always be completed ----

  /** Statements before the arrival. */
  function EntryRank(pc: Pc): nat {
    match pc
    case Idle => 19 case EntryCas => 18 case EntryOwner => 17 case EntryCount => 16
    case ReadPhase => 15 case Arrive => 14
    case _ => 0
  }

  /** Statements from the arrival to the sleep, or to the end of the phase. */
  function SleepRank(pc: Pc): nat {
    match pc
    case TestLast => 13 case ResetCurrent => 12 case NextPhase => 11 case TestPhase => 10
    case SetMutex => 9 case ReadSignal => 8 case AddWaiter => 7 case WaitUnlockOwner => 6 case WaitUnlock => 5
    case _ => 0
  }

  /** How far a thread is, in phase p, from waiting for the end of that phase: first it leaves
      an older phase, then it comes back and arrives, then it goes to sleep. */
  function Rank(p: nat, th: Thread): (r: nat)
    ensures r <= RANKS
  {
    if !Arrived(th) then EntryRank(th.pc)
    else if th.myPhase != p then 20 + CallRank(th.pc)
    else SleepRank(th.pc)
  }

  const RANKS: nat := 31

  ghost function Above(p: nat, k: nat): Thread -> bool { th => Rank(p, th) > k }

  /** The sum of all ranks, counted level by level. */
  ghost function Total(threads: map<nat, Thread>, p: nat, k: nat): nat {
    if k == 0 then 0 else Total(threads, p, k - 1) + Count(threads, Above(p, k - 1))
  }

  lemma {:induction false} TotalUpdate(threads: map<nat, Thread>, p: nat, t: nat, th: Thread, k: nat)
    requires t in threads && Rank(p, th) < Rank(p, threads[t])
    ensures Total(threads[t := th], p, k) <= Total(threads, p, k)
    ensures k >= Rank(p, threads[t]) ==> Total(threads[t := th], p, k) < Total(threads, p, k)
  {
    if k > 0 {
      TotalUpdate(threads, p, t, th, k - 1);
      CountUpdate(threads, t, th, Above(p, k - 1));
    }
  }

  /** Threads that sleep until the current phase is over. */
  predicate Asleep(s: State, th: Thread) { th.pc == Spin && th.myPhase == s.phase }

  /** The holder of the lock, or with the lock free any thread not asleep. */
  ghost predicate Free(s: State, t: nat)
    requires t in s.threads
  {
    if s.locked then s.holder == t else !Asleep(s, s.threads[t])
  }

  /** It gets on, and a thread that has arrived in the current phase stays in it. */
  lemma GetsOn(s: State, t: nat)
    requires Inv(s) && t in s.threads && Free(s, t)
    ensures var th := s.threads[t];
            s.threads[t].pc != NextPhase ==>
              && Rank(s.phase, Local(s, th)) < Rank(s.phase, th)
              && (Pending(s.phase)(th) ==> Pending(s.phase)(Local(s, th)))
  {
    assert ThreadOk(s, s.threads[t]);
  }

  /** With the lock free, fewer than `count` threads have arrived in the current phase. */
  lemma NotFull(s: State)
    requires Inv(s) && !s.locked
    ensures Count(s.threads, Pending(s.phase)) < s.count
  {
    NotReturnedYet(s.log, s.phase);
    var pending := Pending(s.phase);
  }

  /** The schedule lets no thread outside `callers` start a call. */
  ghost predicate OnlyCallers(s: State, schedule: seq<nat>, callers: set<nat>)
    requires forall t :: t in schedule ==> t in s.threads
    decreases |schedule|
  {
    schedule == [] ||
    (StepThreads(s, schedule[0]);
     && (s.threads[schedule[0]].pc == Idle ==> schedule[0] in callers)
     && OnlyCallers(Step(s, schedule[0]), schedule[1..], callers))
  }

  /** The threads that take part in the current phase: they have arrived, or will call. */
  ghost function Party(s: State, callers: set<nat>): set<nat> {
    callers + Those(s.threads, Pending(s.phase))
  }

  lemma PartyKept(s: State, s': State, callers: set<nat>, t: nat)
    requires t in s.threads && t in s'.threads && s'.phase == s.phase
    requires s'.threads == s.threads[t := s'.threads[t]]
    requires Pending(s.phase)(s.threads[t]) ==> Pending(s.phase)(s'.threads[t])
    ensures |Party(s', callers)| >= |Party(s, callers)|
  {
    SubsetSize(Party(s, callers), Party(s', callers));
  }

  /** Someone of the party still has to arrive. */
  lemma Missing(s: State, callers: set<nat>) returns (t: nat)
    requires Inv(s) && !s.locked && callers <= s.threads.Keys && |Party(s, callers)| >= s.count
    ensures t in callers && !Pending(s.phase)(s.threads[t])
  {
    NotFull(s);
    var arrived := Those(s.threads, Pending(s.phase));
    assert Party(s, callers) != arrived;
    t :| t in callers && t !in arrived;
  }

  /** The phase can be completed from every reachable state in which `count` threads have
      arrived in it or are willing to call, and nobody else has to call for that. Threads that
      are still inside a call of an older phase may be among them. */
  lemma {:induction false} CanComplete(s: State, callers: set<nat>) returns (schedule: seq<nat>)
    requires Inv(s) && callers <= s.threads.Keys && |Party(s, callers)| >= s.count
    ensures forall u :: u in schedule ==> u in s.threads
    ensures Run(s, schedule).phase == s.phase + 1 && OnlyCallers(s, schedule, callers)
    decreases Total(s.threads, s.phase, RANKS)
  {
    var u;
    if s.locked { u := s.holder; } else { u := Missing(s, callers); }
    var s' := Step(s, u);
    StepInv(s, u);
    StepThreads(s, u);
    CountersStep(s, u);
    var rest: seq<nat> := [];
    if s'.phase == s.phase {
      GetsOn(s, u);
      ThreadUpdated(s, u);
      assert s'.threads[u] == Local(s, s.threads[u]);
      PartyKept(s, s', callers, u);
      TotalUpdate(s.threads, s.phase, u, s'.threads[u], RANKS);
      rest := CanComplete(s', callers);
    }
    schedule := [u] + rest;
    assert schedule[1..] == rest;
  }

  /** In particular, with `count` threads willing to call, no run of the barrier ends in a state
      from which its phase cannot be completed. */
  lemma NeverStuck(count: nat, tids: set<nat>, schedule: seq<nat>, callers: set<nat>) returns (rest: seq<nat>)
    requires count >= 1 && forall t :: t in tids ==> t >= 1
    requires forall t :: t in schedule ==> t in tids
    requires callers <= tids && |callers| >= count
    ensures forall u :: u in rest ==> u in tids
    ensures var s := Run(Init(count, tids), schedule);
            Run(s, rest).phase == s.phase + 1 && OnlyCallers(s, rest, callers)
  {
    InitInv(count, tids);
    RunInv(Init(count, tids), schedule);
    var s := Run(Init(count, tids), schedule);
    SubsetSize(callers, Party(s, callers));
    rest := CanComplete(s, callers);
  }
}
