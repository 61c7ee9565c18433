/** The priority round-robin scheduler of src/kernel/process.cpp: which process runs after each
    timer tick, and for how long a ready process can be kept waiting. */
module Scheduler {
  import opened Collections

  datatype ProcState = Running | Ready | Zombie | Waiting | Sleeping

  /** The scheduling fields of a process; a smaller priority is better. */
  datatype Proc = Proc(state: ProcState, priority: int, timeSlice: int, timeRemaining: int)

  /** The process ring, starting anywhere, and the position of current_process. */
  datatype Ring = Ring(procs: seq<Proc>, cur: nat)

  predicate Ok(s: Ring) { s.cur < |s.procs| }

  /** Position of the k-th process after current_process; the last one is itself. */
  function At(cur: nat, k: nat, n: nat): nat
    requires cur < n && k < n
  {
    if cur + 1 + k < n then cur + 1 + k else cur + 1 + k - n
  }

  /** May the process at position i be picked? */
  predicate Eligible(s: Ring, i: nat)
    requires i < |s.procs|
  {
    s.procs[i].state == Ready || (i == s.cur && s.procs[i].state == Running)
  }

  predicate BetterReady(s: Ring, i: nat)
    requires Ok(s) && i < |s.procs|
  {
    i != s.cur && s.procs[i].state == Ready && s.procs[i].priority < s.procs[s.cur].priority
  }

  /** The pick among the first k processes after current_process: the first of the best
      priority, or -1. */
  function Best(s: Ring, k: nat): (b: int)
    requires Ok(s) && k <= |s.procs|
    ensures -1 <= b < k
  {
    if k == 0 then -1
    else
      var b := Best(s, k - 1);
      var i := At(s.cur, k - 1, |s.procs|);
      if Eligible(s, i) && (b == -1 || s.procs[i].priority < s.procs[At(s.cur, b, |s.procs|)].priority)
      then k - 1 else b
  }

  function SetProc(s: Ring, i: nat, p: Proc): Ring
    requires i < |s.procs|
  {
    s.(procs := s.procs[i := p])
  }

  /** Hand the processor to the process at position i. */
  function SwitchTo(s: Ring, i: nat): (r: Ring)
    requires Ok(s) && i < |s.procs|
    ensures Ok(r) && |r.procs| == |s.procs|
  {
    var c := s.procs[s.cur];
    var s' := if c.state == Running then SetProc(s, s.cur, c.(state := Ready)) else s;
    var p := s'.procs[i];
    Ring(s'.procs[i := p.(state := Running, timeRemaining := p.timeSlice)], i)
  }

  /** Pick a process and switch to it, or renew the slice of the running one. */
  function Reschedule(s: Ring): (r: Ring)
    requires Ok(s)
    ensures Ok(r) && |r.procs| == |s.procs|
  {
    var n := |s.procs|;
    var b := Best(s, n);
    if b == -1 then s
    else
      var i := At(s.cur, b, n);
      var c := s.procs[s.cur];
      if i == s.cur && c.state == Running then SetProc(s, s.cur, c.(timeRemaining := c.timeSlice))
      else SwitchTo(s, i)
  }

  predicate SomeBetter(s: Ring)
    requires Ok(s)
  {
    exists i :: 0 <= i < |s.procs| && BetterReady(s, i)
  }

  /** The running process has used up one more tick. */
  function CountDown(s: Ring): (r: Ring)
    requires Ok(s)
    ensures Ok(r) && |r.procs| == |s.procs|
  {
    SetProc(s, s.cur, s.procs[s.cur].(timeRemaining := s.procs[s.cur].timeRemaining - 1))
  }

  /** schedule() */
  function Schedule(s: Ring): (r: Ring)
    requires Ok(s)
    ensures Ok(r) && |r.procs| == |s.procs|
  {
    if s.procs[s.cur].state == Running then
      var s' := CountDown(s);
      if s'.procs[s.cur].timeRemaining > 0 && !SomeBetter(s') then s' else Reschedule(s')
    else Reschedule(s)
  }

  // ---- the pick ----

  /** The pick is eligible, no eligible process scanned is better, and those scanned before
      it are strictly worse. */
  lemma {:induction false} BestIsFirstBest(s: Ring, k: nat)
    requires Ok(s) && k <= |s.procs|
    ensures var n, b := |s.procs|, Best(s, k);
            && (b == -1 ==> forall j :: 0 <= j < k ==> !Eligible(s, At(s.cur, j, n)))
            && (b >= 0 ==>
                  && Eligible(s, At(s.cur, b, n))
                  && (forall j :: 0 <= j < k && Eligible(s, At(s.cur, j, n)) ==>
                        s.procs[At(s.cur, b, n)].priority <= s.procs[At(s.cur, j, n)].priority)
                  && (forall j :: 0 <= j < b && Eligible(s, At(s.cur, j, n)) ==>
                        s.procs[At(s.cur, b, n)].priority < s.procs[At(s.cur, j, n)].priority))
  {
    if k > 0 { BestIsFirstBest(s, k - 1); }
  }

  /** Every position is scanned. */
  function Distance(s: Ring, i: nat): (k: nat)
    requires Ok(s) && i < |s.procs|
    ensures k < |s.procs| && At(s.cur, k, |s.procs|) == i
  {
    if i > s.cur then i - s.cur - 1 else i + |s.procs| - s.cur - 1
  }

  // ---- safety ----

  ghost predicate OnlyCurrentRuns(s: Ring) {
    Ok(s) && forall i :: 0 <= i < |s.procs| && s.procs[i].state == Running ==> i == s.cur
  }

  ghost predicate SomeEligible(s: Ring)
    requires Ok(s)
  {
    exists i :: 0 <= i < |s.procs| && Eligible(s, i)
  }

  /** Nobody waits behind a worse running process. */
  ghost predicate WellPicked(s: Ring)
    requires Ok(s)
  {
    s.procs[s.cur].state == Running && forall i :: 0 <= i < |s.procs| ==> !BetterReady(s, i)
  }

  /** The second half of schedule() finds a best eligible process. */
  lemma ReschedulePick(s: Ring)
    requires OnlyCurrentRuns(s)
    ensures OnlyCurrentRuns(Reschedule(s))
    ensures if SomeEligible(s) then WellPicked(Reschedule(s)) else Reschedule(s) == s
  {
    var n, b := |s.procs|, Best(s, |s.procs|);
    BestIsFirstBest(s, n);
    forall i | 0 <= i < n && Eligible(s, i)
      ensures b >= 0 && s.procs[At(s.cur, b, n)].priority <= s.procs[i].priority
    {
      assert Eligible(s, At(s.cur, Distance(s, i), n));
    }
    var r := Reschedule(s);
    forall i | 0 <= i < n && b >= 0 ensures !BetterReady(r, i) {
      assert i != r.cur && r.procs[i].state == Ready ==> Eligible(s, i);
    }
  }

  lemma SchedulePick(s: Ring)
    requires OnlyCurrentRuns(s)
    ensures OnlyCurrentRuns(Schedule(s))
    ensures if SomeEligible(s) then WellPicked(Schedule(s)) else Schedule(s) == s
  {
    var c := s.procs[s.cur];
    if c.state == Running {
      var s' := CountDown(s);
      assert Eligible(s, s.cur) && Eligible(s', s.cur);
      ReschedulePick(s');
    } else {
      ReschedulePick(s);
    }
  }

  // ---- the time slice ----

  /** i is the first process of the best priority, counting from the one behind current_process. */
  ghost predicate FirstBest(s: Ring, i: nat)
    requires Ok(s) && i < |s.procs|
  {
    && Eligible(s, i)
    && forall j :: 0 <= j < |s.procs| && Eligible(s, j) ==>
         && s.procs[i].priority <= s.procs[j].priority
         && (Distance(s, j) < Distance(s, i) ==> s.procs[i].priority < s.procs[j].priority)
  }

  /** The running process has ticks left and nobody better is ready. */
  ghost predicate Continues(s: Ring)
    requires Ok(s)
  {
    && s.procs[s.cur].state == Running && s.procs[s.cur].timeRemaining > 1
    && forall i :: 0 <= i < |s.procs| ==> !BetterReady(s, i)
  }

  /** The processor is with process i, which has its whole slice before it; the process that had
      it before is ready again if it was running, and nothing else has changed. */
  ghost predicate FreshTurn(s: Ring, r: Ring, i: nat)
    requires Ok(s) && i < |s.procs|
  {
    && |r.procs| == |s.procs| && r.cur == i
    && r.procs[i] == s.procs[i].(state := Running, timeRemaining := s.procs[i].timeSlice)
    && (forall j :: 0 <= j < |s.procs| && j != i && j != s.cur ==> r.procs[j] == s.procs[j])
    && (s.cur != i ==>
          var c, c' := s.procs[s.cur], r.procs[s.cur];
          && c'.state == (if c.state == Running then Ready else c.state)
          && c'.priority == c.priority && c'.timeSlice == c.timeSlice)
  }

  lemma RescheduleIs(s: Ring)
    requires OnlyCurrentRuns(s) && SomeEligible(s)
    ensures var r := Reschedule(s); r.cur < |s.procs| && FirstBest(s, r.cur) && FreshTurn(s, r, r.cur)
  {
    var n, b := |s.procs|, Best(s, |s.procs|);
    BestIsFirstBest(s, n);
    forall j | 0 <= j < n && Eligible(s, j)
      ensures b >= 0 && s.procs[At(s.cur, b, n)].priority <= s.procs[j].priority
      ensures Distance(s, j) < b ==> s.procs[At(s.cur, b, n)].priority < s.procs[j].priority
    {
      assert Eligible(s, At(s.cur, Distance(s, j), n));
    }
    assert Distance(s, At(s.cur, b, n)) == b;
  }

  /** The tick changes nobody's chances. */
  lemma CountedDown(s: Ring, r: Ring)
    requires Ok(s)
    ensures SomeBetter(CountDown(s)) == SomeBetter(s)
    ensures r.cur < |s.procs| && FirstBest(CountDown(s), r.cur) ==> FirstBest(s, r.cur)
    ensures r.cur < |s.procs| && FreshTurn(CountDown(s), r, r.cur) ==> FreshTurn(s, r, r.cur)
  {
    var s' := CountDown(s);
    assert forall i :: 0 <= i < |s.procs| ==> BetterReady(s', i) == BetterReady(s, i);
    forall j | 0 <= j < |s.procs|
      ensures Eligible(s', j) == Eligible(s, j) && Distance(s', j) == Distance(s, j)
    {}
  }

  /** With somebody to run, schedule() either takes a tick from the running process or starts a
      whole slice: of the best process, or of the running one again. */
  lemma ScheduleIs(s: Ring)
    requires OnlyCurrentRuns(s) && SomeEligible(s)
    ensures var r, c := Schedule(s), s.procs[s.cur];
            if Continues(s) then r == SetProc(s, s.cur, c.(timeRemaining := c.timeRemaining - 1))
            else r.cur < |s.procs| && FirstBest(s, r.cur) && FreshTurn(s, r, r.cur)
  {
    var c := s.procs[s.cur];
    if c.state == Running {
      var s' := CountDown(s);
      assert Eligible(s', s.cur);
      RescheduleIs(s');
      CountedDown(s, Reschedule(s'));
    } else {
      RescheduleIs(s);
    }
  }

  /** Slices are positive, and the running process has between one tick and its slice left. */
  ghost predicate TurnOk(s: Ring) {
    && Ok(s) && (forall i :: 0 <= i < |s.procs| ==> s.procs[i].timeSlice >= 1)
    && (s.procs[s.cur].state == Running ==> 1 <= s.procs[s.cur].timeRemaining <= s.procs[s.cur].timeSlice)
  }

  lemma ScheduleTurn(s: Ring)
    requires OnlyCurrentRuns(s) && (forall i :: 0 <= i < |s.procs| ==> s.procs[i].timeSlice >= 1)
    requires s.procs[s.cur].state == Running ==> s.procs[s.cur].timeRemaining <= s.procs[s.cur].timeSlice
    ensures TurnOk(Schedule(s))
  {
    if SomeEligible(s) { ScheduleIs(s); } else { SchedulePick(s); }
  }

  // ---- the other things that happen to the ring ----

  /** Everything that changes process states: a timer tick, the current process blocking or
      exiting (in whatever state an earlier schedule() left it), any process being woken, a child
      inserted after its parent, a zombie reaped. */
  datatype Event =
    | Tick
    | Block(how: ProcState)
    | Wake(who: nat)
    | Spawn(child: Proc)
    | Reap(who: nat)

  predicate Enabled(s: Ring, e: Event) {
    && s.cur < |s.procs|
    && match e
       case Tick => true
       case Block(how) => how in {Zombie, Waiting, Sleeping}
       case Wake(i) => i < |s.procs|
       case Spawn(p) => p.state == Ready
       case Reap(i) => i < |s.procs| && i != s.cur && s.procs[i].state == Zombie
  }

  /** Does the event call schedule()? */
  predicate Schedules(e: Event) { e.Tick? || e.Block? }

  /** The state in which it does. */
  function Blocked(s: Ring, e: Event): (r: Ring)
    requires Enabled(s, e)
    ensures Ok(r)
  {
    if e.Block? then SetProc(s, s.cur, s.procs[s.cur].(state := e.how)) else s
  }

  function Spawned(s: Ring, p: Proc): Ring
    requires Ok(s)
  {
    s.(procs := Insert(s.procs, s.cur + 1, p))
  }

  function Reaped(s: Ring, i: nat): Ring
    requires Ok(s) && i < |s.procs|
  {
    Ring(Without(s.procs, i), if i < s.cur then s.cur - 1 else s.cur)
  }

  function Handle(s: Ring, e: Event): Ring
    requires Enabled(s, e)
  {
    match e
    case Tick => Schedule(s)
    case Block(how) => Schedule(Blocked(s, e))
    case Wake(i) => SetProc(s, i, s.procs[i].(state := Ready))
    case Spawn(p) => Spawned(s, p)
    case Reap(i) => Reaped(s, i)
  }

  lemma HandleKeeps(s: Ring, e: Event)
    requires OnlyCurrentRuns(s) && Enabled(s, e)
    ensures OnlyCurrentRuns(Handle(s, e))
    ensures Schedules(e) && SomeEligible(Blocked(s, e)) ==> WellPicked(Handle(s, e))
  {
    SchedulePick(Blocked(s, e));
  }

  ghost predicate Trace(states: seq<Ring>, events: seq<Event>) {
    && |states| == |events| + 1
    && forall i {:trigger events[i]} :: 0 <= i < |events| ==>
         Enabled(states[i], events[i]) && states[i + 1] == Handle(states[i], events[i])
  }

  /** In every run, the only process that can be RUNNING is current_process; and whenever
      schedule() has been called with an eligible process, no ready one is strictly better. */
  lemma {:induction false} RunSafe(states: seq<Ring>, events: seq<Event>, k: nat)
    requires Trace(states, events) && k < |states| && OnlyCurrentRuns(states[0])
    ensures OnlyCurrentRuns(states[k])
    ensures k > 0 && Schedules(events[k - 1]) && SomeEligible(Blocked(states[k - 1], events[k - 1])) ==>
              WellPicked(states[k])
  {
    if k > 0 {
      RunSafe(states, events, k - 1);
      assert states[k] == Handle(states[k - 1], events[k - 1]);
      HandleKeeps(states[k - 1], events[k - 1]);
    }
  }

  lemma HandleTurn(s: Ring, e: Event)
    requires OnlyCurrentRuns(s) && TurnOk(s) && Enabled(s, e)
    requires e.Spawn? ==> e.child.timeSlice >= 1
    ensures TurnOk(Handle(s, e))
  {
    if Schedules(e) { ScheduleTurn(Blocked(s, e)); }
  }

  /** In every run with positive slices, the running process has at least one tick left and at
      most its slice. */
  lemma {:induction false} RunTurns(states: seq<Ring>, events: seq<Event>, k: nat)
    requires Trace(states, events) && k < |states| && OnlyCurrentRuns(states[0]) && TurnOk(states[0])
    requires forall e :: e in events && e.Spawn? ==> e.child.timeSlice >= 1
    ensures TurnOk(states[k])
  {
    if k > 0 {
      RunTurns(states, events, k - 1);
      RunSafe(states, events, k - 1);
      assert events[k - 1] in events && states[k] == Handle(states[k - 1], events[k - 1]);
      HandleTurn(states[k - 1], events[k - 1]);
    }
  }

  // ---- how long a ready process waits ----

  function Max1(x: int): (r: nat)
    ensures r >= 1
  {
    if x < 1 then 1 else x
  }

  /** The state after m timer ticks and nothing else. */
  function Ticks(s: Ring, m: nat): (r: Ring)
    requires Ok(s)
    ensures Ok(r) && |r.procs| == |s.procs|
    decreases m
  {
    if m == 0 then s else Ticks(Schedule(s), m - 1)
  }

  predicate Peer(s: Ring, t: nat, i: nat)
    requires t < |s.procs| && i < |s.procs|
  {
    s.procs[i].state == Ready && s.procs[i].priority == s.procs[t].priority
  }

  /** Time slices of t's ready peers among the first k processes after current_process. */
  function PeersAhead(s: Ring, t: nat, k: nat): nat
    requires Ok(s) && t < |s.procs| && k <= |s.procs|
  {
    if k == 0 then 0
    else
      var i := At(s.cur, k - 1, |s.procs|);
      PeersAhead(s, t, k - 1) + if Peer(s, t, i) then Max1(s.procs[i].timeSlice) else 0
  }

  /** What is left of the running process's turn before t's peers get theirs. */
  function TurnLeft(s: Ring, t: nat): nat
    requires Ok(s) && t < |s.procs|
  {
    var c := s.procs[s.cur];
    if c.state == Running && c.priority == s.procs[t].priority then Max1(c.timeRemaining) else 1
  }

  function WaitTicks(s: Ring, t: nat): nat
    requires Ok(s) && t < |s.procs|
  {
    TurnLeft(s, t) + PeersAhead(s, t, Distance(s, t))
  }

  /** t is ready, and nobody ready or running has a strictly better priority. */
  ghost predicate BestWaiting(s: Ring, t: nat) {
    && OnlyCurrentRuns(s) && t < |s.procs| && t != s.cur && s.procs[t].state == Ready
    && (forall i :: 0 <= i < |s.procs| && s.procs[i].state == Ready ==> s.procs[t].priority <= s.procs[i].priority)
    && (s.procs[s.cur].state == Running ==> s.procs[t].priority <= s.procs[s.cur].priority)
  }

  lemma {:induction false} NoPeers(s: Ring, t: nat, k: nat)
    requires Ok(s) && t < |s.procs| && k <= |s.procs|
    requires forall j :: 0 <= j < k ==> !Peer(s, t, At(s.cur, j, |s.procs|))
    ensures PeersAhead(s, t, k) == 0
  {
    if k > 0 { NoPeers(s, t, k - 1); }
  }

  /** Seen from the process at scan position b, the peers further on are the same. */
  lemma {:induction false} PeersShift(s: Ring, s': Ring, t: nat, b: nat, d: nat)
    requires Ok(s) && t < |s.procs| == |s'.procs| && b + 1 + d <= |s.procs| - 1
    requires s'.cur == At(s.cur, b, |s.procs|)
    requires forall i :: 0 <= i < |s.procs| && i != s.cur && i != s'.cur ==> s'.procs[i] == s.procs[i]
    requires s'.procs[t].priority == s.procs[t].priority
    ensures PeersAhead(s, t, b + 1 + d) == PeersAhead(s, t, b + 1) + PeersAhead(s', t, d)
    decreases d
  {
    if d > 0 {
      PeersShift(s, s', t, b, d - 1);
      assert At(s.cur, b + d, |s.procs|) == At(s'.cur, d - 1, |s.procs|);
    }
  }

  /** Does the running process keep the processor for another tick? */
  predicate TurnGoesOn(s: Ring, t: nat)
    requires Ok(s) && t < |s.procs|
  {
    var c := s.procs[s.cur];
    c.state == Running && c.priority == s.procs[t].priority && c.timeRemaining > 1
  }

  /** The processor has gone from current_process to process i. */
  ghost predicate Switched(s: Ring, s': Ring, i: nat)
    requires Ok(s) && i < |s.procs| == |s'.procs|
  {
    && s'.cur == i != s.cur && s'.procs[i].state == Running
    && s'.procs[i].timeRemaining == s.procs[i].timeSlice == s'.procs[i].timeSlice
    && s'.procs[i].priority == s.procs[i].priority
    && s'.procs[s.cur].priority == s.procs[s.cur].priority && s'.procs[s.cur].state != Running
    && (s'.procs[s.cur].state == Ready ==> s.procs[s.cur].state in {Running, Ready})
    && forall k :: 0 <= k < |s.procs| && k != s.cur && k != i ==> s'.procs[k] == s.procs[k]
  }

  lemma StillWaiting(s: Ring, s': Ring, t: nat, i: nat)
    requires BestWaiting(s, t) && i < |s.procs| == |s'.procs| && Switched(s, s', i) && i != t && Peer(s, t, i)
    ensures BestWaiting(s', t) && TurnLeft(s', t) == Max1(s.procs[i].timeSlice)
  {}

  /** The pick is the first peer after current_process, which itself is scanned last. */
  lemma PicksPeer(s: Ring, t: nat) returns (b: nat)
    requires BestWaiting(s, t)
    ensures b <= Distance(s, t) && Peer(s, t, At(s.cur, b, |s.procs|))
    ensures forall j :: 0 <= j < b ==> !Peer(s, t, At(s.cur, j, |s.procs|))
    ensures Switched(s, Reschedule(s), At(s.cur, b, |s.procs|))
  {
    var n := |s.procs|;
    BestIsFirstBest(s, n);
    assert Eligible(s, At(s.cur, Distance(s, t), n));
    b := Best(s, n);
    assert At(s.cur, b, n) == s.cur ==> b == n - 1;
  }

  /** The switch goes to the first peer after current_process. */
  lemma SwitchesToPeer(s: Ring, t: nat) returns (b: nat)
    requires BestWaiting(s, t) && !TurnGoesOn(s, t)
    ensures b <= Distance(s, t) && Peer(s, t, At(s.cur, b, |s.procs|))
    ensures forall j :: 0 <= j < b ==> !Peer(s, t, At(s.cur, j, |s.procs|))
    ensures Switched(s, Schedule(s), At(s.cur, b, |s.procs|))
  {
    var c := s.procs[s.cur];
    if c.state == Running {
      var s1 := CountDown(s);
      if c.priority != s.procs[t].priority { assert BetterReady(s1, t); }
      assert Schedule(s) == Reschedule(s1);
      b := PicksPeer(s1, t);
      forall j | 0 <= j < b ensures !Peer(s, t, At(s.cur, j, |s.procs|)) {
        assert !Peer(s1, t, At(s.cur, j, |s.procs|));
      }
    } else {
      b := PicksPeer(s, t);
    }
  }

  /** While the running process has ticks left, only its counter changes. */
  lemma StaysPut(s: Ring, t: nat)
    requires BestWaiting(s, t) && TurnGoesOn(s, t)
    ensures Schedule(s) == CountDown(s)
  {}

  lemma {:induction false} PeersSame(s: Ring, s': Ring, t: nat, k: nat)
    requires Ok(s) && t < |s.procs| == |s'.procs| && k <= |s.procs| - 1 && s'.cur == s.cur
    requires forall i :: 0 <= i < |s.procs| && i != s.cur ==> s'.procs[i] == s.procs[i]
    requires t != s.cur
    ensures PeersAhead(s', t, k) == PeersAhead(s, t, k)
  {
    if k > 0 { PeersSame(s, s', t, k - 1); }
  }

  /** After a switch to the first peer, at scan position b, the wait is the slices of the others. */
  lemma SwitchedWait(s: Ring, s': Ring, t: nat, b: nat, d: nat)
    requires BestWaiting(s, t) && d == Distance(s, t) && b <= d && |s'.procs| == |s.procs|
    requires Switched(s, s', At(s.cur, b, |s.procs|)) && Peer(s, t, At(s.cur, b, |s.procs|))
    requires PeersAhead(s, t, b) == 0
    ensures if b == d then s'.cur == t && PeersAhead(s, t, d) == 0
            else BestWaiting(s', t) && WaitTicks(s', t) == PeersAhead(s, t, d) > 0
  {
    if b < d {
      var i := At(s.cur, b, |s.procs|);
      StillWaiting(s, s', t, i);
      PeersShift(s, s', t, b, d - b - 1);
      assert PeersAhead(s, t, b + 1) == Max1(s.procs[i].timeSlice);
      assert Distance(s', t) == d - b - 1;
    }
  }

  /** The tick that ends the turn: the first peer ahead gets the processor. */
  lemma SwitchTick(s: Ring, t: nat)
    requires BestWaiting(s, t) && !TurnGoesOn(s, t)
    ensures var s' := Schedule(s);
            if PeersAhead(s, t, Distance(s, t)) == 0 then s'.cur == t && s'.procs[t].state == Running
            else BestWaiting(s', t) && WaitTicks(s', t) == PeersAhead(s, t, Distance(s, t))
  {
    var b := SwitchesToPeer(s, t);
    NoPeers(s, t, b);
    SwitchedWait(s, Schedule(s), t, b, Distance(s, t));
  }

  /** One tick brings the waiting process one tick closer to its turn. */
  lemma OneTick(s: Ring, t: nat)
    requires BestWaiting(s, t)
    ensures var s' := Schedule(s);
            if WaitTicks(s, t) == 1 then s'.cur == t && s'.procs[t].state == Running
            else BestWaiting(s', t) && WaitTicks(s', t) == WaitTicks(s, t) - 1
  {
    if TurnGoesOn(s, t) {
      StaysPut(s, t);
      PeersSame(s, Schedule(s), t, Distance(s, t));
    } else {
      SwitchTick(s, t);
    }
  }

  /** With no other events, a ready process of the best priority first runs after exactly
      WaitTicks ticks: the rest of the running turn and one full slice for each of its
      ready peers ahead of it in the ring. */
  lemma {:induction false} WaitsExactly(s: Ring, t: nat, m: nat)
    requires BestWaiting(s, t) && m <= WaitTicks(s, t)
    ensures Ticks(s, m).cur == t <==> m == WaitTicks(s, t)
    ensures m == WaitTicks(s, t) ==> Ticks(s, m).procs[t].state == Running
    decreases m
  {
    if m > 0 {
      OneTick(s, t);
      if WaitTicks(s, t) > 1 { WaitsExactly(Schedule(s), t, m - 1); }
    }
  }

  /** A turn that begins anew lasts a whole slice against a peer woken just after: with nobody
      between them in the ring, the peer first runs after that many ticks. */
  lemma WholeSlice(s: Ring, t: nat, s': Ring, m: nat)
    requires OnlyCurrentRuns(s) && TurnOk(s) && SomeEligible(s) && !Continues(s) && t < |s.procs|
    requires s' == Handle(Schedule(s), Wake(t))
    requires BestWaiting(s', t) && s'.procs[t].priority == s'.procs[s'.cur].priority
    requires forall i :: 0 <= i < |s'.procs| && Peer(s', t, i) ==> Distance(s', t) <= Distance(s', i)
    requires m <= s'.procs[s'.cur].timeSlice
    ensures Ticks(s', m).cur == t <==> m == s'.procs[s'.cur].timeSlice
  {
    ScheduleIs(s);
    SchedulePick(s);
    var d := Distance(s', t);
    forall j | 0 <= j < d ensures !Peer(s', t, At(s'.cur, j, |s'.procs|)) {
      assert Distance(s', At(s'.cur, j, |s'.procs|)) == j;
    }
    NoPeers(s', t, d);
    WaitsExactly(s', t, m);
  }

  /** The only process is picked again when its slice ends, and gets a new one. */
  lemma Renewed(slice: int)
    ensures var s := Ring([Proc(Running, 1, slice, 1)], 0);
            Schedule(s) == Ring([Proc(Running, 1, slice, slice)], 0)
  {
    var s := Ring([Proc(Running, 1, slice, 1)], 0);
    assert Eligible(s, 0);
    ScheduleIs(s);
  }
}
