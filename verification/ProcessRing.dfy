/** The circular list of processes in memory, and schedule() working on it
    (src/kernel/process.cpp). */
module ProcessRing {
  import opened Collections
  import opened Scheduler

  class Process {
    var state: ProcState
    var priority: int
    var timeSlice: int
    var timeRemaining: int
    var next: Process?

    constructor (state: ProcState, priority: int, timeSlice: int, timeRemaining: int)
      ensures this.state == state && this.priority == priority
      ensures this.timeSlice == timeSlice && this.timeRemaining == timeRemaining
    {
      this.state, this.priority := state, priority;
      this.timeSlice, this.timeRemaining := timeSlice, timeRemaining;
      next := null;
    }

    function ToProc(): Proc
      reads `state, `priority, `timeSlice, `timeRemaining
    {
      Proc(state, priority, timeSlice, timeRemaining)
    }
  }

  function Succ(i: nat, n: nat): nat
    requires i < n
  {
    if i + 1 == n then 0 else i + 1
  }

  /** The scheduling fields of all processes. */
  ghost predicate Holds(ring: seq<Process>, procs: seq<Proc>)
    reads ring`state, ring`priority, ring`timeSlice, ring`timeRemaining
  {
    |ring| == |procs| && forall i :: 0 <= i < |ring| ==> ring[i].ToProc() == procs[i]
  }

  ghost predicate Circular(ring: seq<Process>)
    reads ring`next
  {
    forall i {:trigger ring[i].next} :: 0 <= i < |ring| ==> ring[i].next == ring[Succ(i, |ring|)]
  }

  class ProcessTable {
    var current: Process
    ghost var ring: seq<Process>
    ghost var cur: nat
    /** The process that ready_queue points to, and its position. */
    var readyQueue: Process
    ghost var rq: nat
    ghost var procs: seq<Proc>

    ghost predicate Valid()
      reads this, ring
    {
      && cur < |ring| && ring[cur] == current && Distinct(ring) && Circular(ring)
      && Holds(ring, procs) && rq < |ring| && ring[rq] == readyQueue
    }

    ghost function Abs(): Ring
      reads `procs, `cur
    {
      Ring(procs, cur)
    }

    /** init_multitasking: one running process, linked to itself. */
    constructor (p: Process)
      modifies p
      ensures Valid() && ring == [p] && cur == 0
      ensures p.ToProc() == old(p.ToProc())
    {
      p.next := p;
      current := p;
      readyQueue := p;
      ring, cur, rq, procs := [p], 0, 0, [p.ToProc()];
    }

    /** Is some other ready process strictly better than the running one? */
    method FoundHigher() returns (found: bool)
      requires Valid()
      ensures found == SomeBetter(Abs())
    {
      var p := current.next;
      ghost var s, n, k := Abs(), |ring|, 0;
      while p != current
        invariant 0 <= k < n && p == ring[At(cur, k, n)]
        invariant forall j :: 0 <= j < k ==> !BetterReady(s, At(cur, j, n))
        decreases n - k
      {
        assert ring[At(cur, k, n)].ToProc() == s.procs[At(cur, k, n)];
        if p.state == Ready && p.priority < current.priority {
          assert BetterReady(s, At(cur, k, n));
          return true;
        }
        p := p.next;
        k := k + 1;
      }
      assert k == n - 1;
      forall i | 0 <= i < n ensures !BetterReady(s, i) {
        assert At(cur, Distance(s, i), n) == i;
      }
      found := false;
    }

    /** The best of the first k processes after current_process. */
    ghost predicate Picked(best: Process?, k: nat)
      requires Valid() && k <= |ring|
      reads this, ring
    {
      var b := Best(Abs(), k);
      if best == null then b == -1 else b >= 0 && best == ring[At(cur, b, |ring|)]
    }

    /** The comparison in the scan. */
    method Consider(p: Process, best: Process?, ghost k: nat) returns (best': Process?)
      requires Valid() && k < |ring| && p == ring[At(cur, k, |ring|)] && Picked(best, k)
      ensures Picked(best', k + 1)
    {
      ghost var s, i := Abs(), At(cur, k, |ring|);
      assert ring[i].ToProc() == s.procs[i];
      assert best != null ==> best.ToProc() == s.procs[At(cur, Best(s, k), |ring|)];
      assert p == current <==> i == cur;
      best' := best;
      if p.state == Ready || (p == current && current.state == Running) {
        if best == null || p.priority < best.priority { best' := p; }
      }
    }

    /** Scan the whole ring, starting after current_process, for the best process to run. */
    method FindBest() returns (best: Process?)
      requires Valid()
      ensures best == null <==> Best(Abs(), |ring|) == -1
      ensures best != null ==> best == ring[At(cur, Best(Abs(), |ring|), |ring|)]
    {
      best := null;
      var p := current.next;
      ghost var n, k := |ring|, 0;
      while true
        invariant 0 <= k < n && p == ring[At(cur, k, n)] && Picked(best, k)
        decreases n - k
      {
        best := Consider(p, best, k);
        p := p.next;
        k := k + 1;
        if p == current.next {
          assert k == n;
          return;
        }
      }
    }

    method SetRemaining(ticks: int)
      requires Valid()
      modifies `procs, current`timeRemaining
      ensures Valid() && current.timeRemaining == ticks && current.state == old(current.state)
      ensures Abs() == SetProc(old(Abs()), cur, old(Abs()).procs[cur].(timeRemaining := ticks))
    {
      current.timeRemaining := ticks;
      procs := procs[cur := procs[cur].(timeRemaining := ticks)];
    }

    method SetState(state: ProcState)
      requires Valid()
      modifies `procs, current`state
      ensures Valid() && current.state == state
      ensures Abs() == SetProc(old(Abs()), cur, old(Abs()).procs[cur].(state := state))
    {
      current.state := state;
      procs := procs[cur := procs[cur].(state := state)];
    }

    /** Hand the processor to `best`. */
    method SwitchTo(best: Process, ghost i: nat)
      requires Valid() && i < |ring| && ring[i] == best
      modifies `current, `cur, `procs, ring`state, ring`timeRemaining
      ensures Valid() && ring == old(ring) && Abs() == Scheduler.SwitchTo(old(Abs()), i)
    {
      if current.state == Running { SetState(Ready); }
      MoveTo(best, i);
      SetState(Running);
      SetRemaining(current.timeSlice);
    }

    method MoveTo(p: Process, ghost i: nat)
      requires Valid() && i < |ring| && ring[i] == p
      modifies `current, `cur
      ensures Valid() && current == p && Abs() == Ring(old(Abs()).procs, i)
    {
      current := p;
      cur := i;
    }

    /** The second half of schedule(): pick, then switch or renew the slice. */
    method Reschedule()
      requires Valid()
      modifies `current, `cur, `procs, ring`state, ring`timeRemaining
      ensures Valid() && ring == old(ring) && Abs() == Scheduler.Reschedule(old(Abs()))
    {
      var best := FindBest();
      if best == null { return; }
      ghost var i := At(cur, Best(Abs(), |ring|), |ring|);
      if best == current && current.state == Running {
        SetRemaining(current.timeSlice);
        return;
      }
      SwitchTo(best, i);
    }

    /** schedule() */
    method Schedule()
      requires Valid()
      modifies `current, `cur, `procs, ring`state, ring`timeRemaining
      ensures Valid() && ring == old(ring) && Abs() == Scheduler.Schedule(old(Abs()))
    {
      if current.state == Running {
        SetRemaining(current.timeRemaining - 1);
        if current.timeRemaining > 0 {
          var found := FoundHigher();
          if !found { return; }
        }
      }
      Reschedule();
    }

    /** The ring insertion of fork_process, sys_posix_spawn and create_kernel_thread. */
    method InsertAfterCurrent(p: Process)
      requires Valid() && p !in ring && p.state == Ready
      modifies `ring, `procs, `rq, current`next, p`next
      ensures Valid() && ring == Insert(old(ring), cur + 1, p) && p.ToProc() == old(p.ToProc())
      ensures Abs() == Spawned(old(Abs()), p.ToProc())
    {
      InsertedDistinct(ring, cur, p);
      InsertedHolds(ring, procs, cur, p);
      LinkIn(p, Insert(ring, cur + 1, p), Insert(procs, cur + 1, p.ToProc()), if rq > cur then rq + 1 else rq);
    }

    method LinkIn(p: Process, ghost ring': seq<Process>, ghost procs': seq<Proc>, ghost rq': nat)
      requires Valid() && p !in ring && ring' == Insert(ring, cur + 1, p)
      requires Distinct(ring') && Holds(ring', procs') && rq' < |ring'| && ring'[rq'] == readyQueue
      modifies `ring, `procs, `rq, current`next, p`next
      ensures Valid() && ring == ring' && procs == procs'
    {
      ghost var r := ring;
      p.next := current.next;
      current.next := p;
      InsertedCircular(r, cur, p);
      ring, procs, rq := ring', procs', rq';
    }

    /** Walk from `start` to the predecessor of `child`. */
    method Predecessor(child: Process, start: Process, ghost c: nat, ghost from: nat)
      returns (curr: Process, ghost i: nat)
      requires Valid() && c < |ring| && ring[c] == child && from < |ring| && ring[from] == start
      ensures curr.next == child
      ensures i < |ring| && curr == ring[i] && Succ(i, |ring|) == c
    {
      curr := start;
      i := from;
      while curr.next != child
        invariant i < |ring| && curr == ring[i]
        decreases if i < c then c - i else c + |ring| - i
      {
        curr := curr.next;
        i := Succ(i, |ring|);
      }
      assert ring[Succ(i, |ring|)] == ring[c];
    }

    /** The unlinking of wait_process and sys_waitpid: walk from ready_queue to the predecessor.
        A child is not the current process, so it is never the last one in the ring. */
    method Unlink(child: Process, ghost c: nat)
      requires Valid() && c < |ring| && ring[c] == child && c != cur && child.state == Zombie
      modifies `ring, `cur, `rq, `procs, `readyQueue, ring`next
      ensures Valid() && ring == Without(old(ring), c) && current == old(current)
      ensures readyQueue == if old(readyQueue) == child then old(child.next) else old(readyQueue)
      ensures Abs() == Reaped(old(Abs()), c)
    {
      var curr;
      ghost var i;
      curr, i := Predecessor(child, readyQueue, c, rq);
      RemovedDistinct(ring, c, cur);
      RemovedHolds(ring, procs, c);
      RemovedQueue(ring, c, rq);
      Skip(curr, child, c, i, Without(ring, c), Without(procs, c), Shifted(cur, c), QueueAfter(|ring|, c, rq));
    }

    /** curr->next = child->next, for the predecessor of `child`, and ready_queue moves on. */
    method Skip(curr: Process, child: Process, ghost c: nat, ghost i: nat, ghost ring': seq<Process>,
        ghost procs': seq<Proc>, ghost cur': nat, ghost rq': nat)
      requires Valid() && c < |ring| && ring[c] == child && ring' == Without(ring, c)
      requires i < |ring| && i != c && ring[i] == curr && Succ(i, |ring|) == c
      requires Distinct(ring') && Holds(ring', procs') && cur' < |ring'| && ring'[cur'] == current
      requires rq' < |ring'| && ring'[rq'] == if readyQueue == child then child.next else readyQueue
      modifies `ring, `cur, `rq, `procs, `readyQueue, curr`next
      ensures Valid() && ring == ring' && procs == procs' && cur == cur'
      ensures readyQueue == if old(readyQueue) == child then old(child.next) else old(readyQueue)
    {
      ghost var r := ring;
      if readyQueue == child { readyQueue := child.next; }
      curr.next := child.next;
      RemovedCircular(r, c, i);
      ring, procs, cur, rq := ring', procs', cur', rq';
    }
  }

  /** Where position j is found after the removal of position `at`. */
  function Shifted(j: nat, at: nat): nat { if at < j then j - 1 else j }

  function QueueAfter(n: nat, at: nat, rq: nat): nat
    requires at < n
  {
    Shifted(if rq == at then Succ(at, n) else rq, at)
  }

  lemma RemovedQueue(r: seq<Process>, at: nat, rq: nat)
    requires Distinct(r) && at < |r| && rq < |r| && |r| > 1
    ensures QueueAfter(|r|, at, rq) < |Without(r, at)|
    ensures Without(r, at)[QueueAfter(|r|, at, rq)] == if r[rq] == r[at] then r[Succ(at, |r|)] else r[rq]
  {}

  lemma InsertedDistinct(r: seq<Process>, at: nat, p: Process)
    requires Distinct(r) && p !in r && at < |r|
    ensures Distinct(Insert(r, at + 1, p))
  {}

  lemma InsertedCircular(r: seq<Process>, at: nat, p: Process)
    requires at < |r| && p.next == r[Succ(at, |r|)]
    requires forall i {:trigger r[i].next} :: 0 <= i < |r| ==> r[i].next == if i == at then p else r[Succ(i, |r|)]
    ensures Circular(Insert(r, at + 1, p))
  {}

  lemma RemovedCircular(r: seq<Process>, at: nat, before: nat)
    requires at < |r| && before < |r| && before != at && Succ(before, |r|) == at
    requires forall i {:trigger r[i].next} :: 0 <= i < |r| ==>
               r[i].next == if i == before then r[Succ(at, |r|)] else r[Succ(i, |r|)]
    ensures Circular(Without(r, at))
  {}

  lemma RemovedDistinct(r: seq<Process>, at: nat, cur: nat)
    requires Distinct(r) && at < |r| && cur < |r| && cur != at
    ensures Distinct(Without(r, at))
    ensures Shifted(cur, at) < |Without(r, at)| && Without(r, at)[Shifted(cur, at)] == r[cur]
  {}

  lemma InsertedHolds(r: seq<Process>, procs: seq<Proc>, at: nat, p: Process)
    requires at < |r| && Holds(r, procs)
    ensures Holds(Insert(r, at + 1, p), Insert(procs, at + 1, p.ToProc()))
  {}

  lemma RemovedHolds(r: seq<Process>, procs: seq<Proc>, at: nat)
    requires at < |r| && Holds(r, procs)
    ensures Holds(Without(r, at), Without(procs, at))
  {}
}
