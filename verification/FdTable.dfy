/** Reference-counted open-file descriptions shared by the descriptor tables of all processes
    (src/kernel/process.cpp, src/kernel/kernel_vfs_phase4.cpp, src/kernel/file_ops.cpp). */
module FdTable {
  import opened Collections

  const MAX_PROCESS_FILES: nat := 16
  const EBADF: int := 9
  const EMFILE: int := 24

  /** file_description_t */
  datatype Description = Description(node: nat, offset: nat, flags: nat, refCount: nat)

  /** A descriptor table holds addresses of descriptions; 0 is the null pointer. */
  datatype Proc = Proc(zombie: bool, fds: seq<nat>)

  type Memory = map<nat, Description>

  // ---- counting slots ----

  /** How many slots of a table hold an address. */
  ghost function Held(fds: seq<nat>, d: nat): nat {
    if fds == [] then 0 else Held(fds[..|fds| - 1], d) + if fds[|fds| - 1] == d then 1 else 0
  }

  /** How many slots of all tables hold it. */
  ghost function Slots(procs: seq<Proc>, d: nat): nat {
    if procs == [] then 0 else Slots(procs[..|procs| - 1], d) + Held(procs[|procs| - 1].fds, d)
  }

  /** The count recorded at an address; a freed address counts nothing. */
  function RefCount(descs: Memory, d: nat): nat {
    if d in descs then descs[d].refCount else 0
  }

  lemma {:induction false} HeldUpdate(fds: seq<nat>, k: nat, x: nat, d: nat)
    requires k < |fds|
    ensures Held(fds[k := x], d) + (if fds[k] == d then 1 else 0) == Held(fds, d) + if x == d then 1 else 0
  {
    var n := |fds| - 1;
    if k < n {
      HeldUpdate(fds[..n], k, x, d);
      assert fds[k := x][..n] == fds[..n][k := x];
    } else {
      assert fds[k := x][..n] == fds[..n];
    }
  }

  lemma {:induction false} HeldPositive(fds: seq<nat>, d: nat)
    ensures Held(fds, d) > 0 <==> d in fds
  {
    if fds != [] {
      var n := |fds| - 1;
      HeldPositive(fds[..n], d);
      assert fds == fds[..n] + [fds[n]];
    }
  }

  lemma {:induction false} SlotsUpdate(procs: seq<Proc>, i: nat, p: Proc, d: nat)
    requires i < |procs|
    ensures Slots(procs[i := p], d) + Held(procs[i].fds, d) == Slots(procs, d) + Held(p.fds, d)
  {
    var n := |procs| - 1;
    if i < n {
      SlotsUpdate(procs[..n], i, p, d);
      assert procs[i := p][..n] == procs[..n][i := p];
    } else {
      assert procs[i := p][..n] == procs[..n];
    }
  }

  lemma {:induction false} SlotsInsert(procs: seq<Proc>, i: nat, p: Proc, d: nat)
    requires i <= |procs|
    ensures Slots(Insert(procs, i, p), d) == Slots(procs, d) + Held(p.fds, d)
  {
    var n := |procs| - 1;
    var r := Insert(procs, i, p);
    if i == |procs| {
      assert r[..|procs|] == procs;
    } else {
      SlotsInsert(procs[..n], i, p, d);
      assert r[..|procs|] == Insert(procs[..n], i, p);
    }
  }

  lemma {:induction false} SlotsAtLeast(procs: seq<Proc>, i: nat, d: nat)
    requires i < |procs|
    ensures Slots(procs, d) >= Held(procs[i].fds, d)
  {
    var n := |procs| - 1;
    if i < n { SlotsAtLeast(procs[..n], i, d); }
  }

  // ---- the invariant ----

  /** Every description is counted exactly: the slots that hold it, and the slots lost with
      processes that ended through sys__exit. */
  ghost predicate Counted(descs: Memory, procs: seq<Proc>, leaked: Leaks) {
    && 0 !in descs
    && (forall d :: d in descs ==> descs[d].refCount >= 1)
    && (forall d {:trigger RefCount(descs, d)} :: d != 0 ==> RefCount(descs, d) == Slots(procs, d) + Lost(leaked, d))
    && (forall i :: 0 <= i < |procs| ==> |procs[i].fds| == MAX_PROCESS_FILES)
  }

  /** The tables of reaped processes, as they were. */
  type Leaks = seq<Proc>

  ghost function Lost(leaked: Leaks, d: nat): nat { Slots(leaked, d) }

  /** No process has ended through sys__exit: dead tables are empty and nothing is lost. */
  ghost predicate Clean(procs: seq<Proc>, leaked: Leaks) {
    && (forall i :: 0 <= i < |leaked| ==> forall k :: 0 <= k < |leaked[i].fds| ==> leaked[i].fds[k] == 0)
    && (forall i :: 0 <= i < |procs| && procs[i].zombie ==>
          forall k :: 0 <= k < |procs[i].fds| ==> procs[i].fds[k] == 0)
  }

  /** Without sys__exit every count equals the number of slots. */
  lemma ExactWhenClean(descs: Memory, procs: seq<Proc>, leaked: Leaks, d: nat)
    requires Counted(descs, procs, leaked) && Clean(procs, leaked) && d != 0
    ensures RefCount(descs, d) == Slots(procs, d)
  {
    NothingLost(leaked, d);
  }

  lemma {:induction false} NothingLost(leaked: Leaks, d: nat)
    requires d != 0 && forall i :: 0 <= i < |leaked| ==> forall k :: 0 <= k < |leaked[i].fds| ==> leaked[i].fds[k] == 0
    ensures Lost(leaked, d) == 0
  {
    if leaked != [] {
      NothingLost(leaked[..|leaked| - 1], d);
      HeldPositive(leaked[|leaked| - 1].fds, d);
    }
  }

  /** No slot of any table refers to a freed description, and no count is below the number of
      slots that hold the description. */
  lemma NoDangling(descs: Memory, procs: seq<Proc>, leaked: Leaks, i: nat, j: nat)
    requires Counted(descs, procs, leaked) && i < |procs| && j < MAX_PROCESS_FILES && procs[i].fds[j] != 0
    ensures var d := procs[i].fds[j];
            && d in descs && descs[d].refCount >= Slots(procs, d) >= 1
            && (Lost(leaked, d) == 0 ==> descs[d].refCount == Slots(procs, d))
  {
    var d := procs[i].fds[j];
    SlotsAtLeast(procs, i, d);
    HeldPositive(procs[i].fds, d);
    var rc := RefCount(descs, d);
  }

  function AddRef(descs: Memory, d: nat): Memory
    requires d in descs
  {
    descs[d := descs[d].(refCount := descs[d].refCount + 1)]
  }

  /** ref_count--, and kfree at zero. */
  function Release(descs: Memory, d: nat): Memory
    requires d in descs && descs[d].refCount >= 1
  {
    if descs[d].refCount == 1 then descs - {d}
    else descs[d := descs[d].(refCount := descs[d].refCount - 1)]
  }

  function SetFd(procs: seq<Proc>, i: nat, fd: nat, d: nat): seq<Proc>
    requires i < |procs| && fd < |procs[i].fds|
  {
    procs[i := procs[i].(fds := procs[i].fds[fd := d])]
  }

  lemma SlotsSetFd(procs: seq<Proc>, i: nat, fd: nat, d: nat, x: nat)
    requires i < |procs| && fd < |procs[i].fds|
    ensures Slots(SetFd(procs, i, fd, d), x) + (if procs[i].fds[fd] == x then 1 else 0) ==
              Slots(procs, x) + if d == x then 1 else 0
  {
    var fds := procs[i].fds;
    SlotsUpdate(procs, i, procs[i].(fds := fds[fd := d]), x);
    HeldUpdate(fds, fd, d, x);
  }

  lemma DupCounted(descs: Memory, procs: seq<Proc>, leaked: Leaks, i: nat, fd: nat, free: nat)
    requires Counted(descs, procs, leaked) && i < |procs| && fd < MAX_PROCESS_FILES && free < MAX_PROCESS_FILES
    requires procs[i].fds[fd] != 0 && procs[i].fds[free] == 0
    ensures procs[i].fds[fd] in descs
    ensures Counted(AddRef(descs, procs[i].fds[fd]), SetFd(procs, i, free, procs[i].fds[fd]), leaked)
  {
    var d := procs[i].fds[fd];
    NoDangling(descs, procs, leaked, i, fd);
    forall x {:trigger RefCount(AddRef(descs, d), x)} | x != 0
      ensures RefCount(AddRef(descs, d), x) == Slots(SetFd(procs, i, free, d), x) + Lost(leaked, x)
    {
      SlotsSetFd(procs, i, free, d, x);
      var rc := RefCount(descs, x);
    }
  }

  lemma CloseCounted(descs: Memory, procs: seq<Proc>, leaked: Leaks, i: nat, fd: nat)
    requires Counted(descs, procs, leaked) && i < |procs| && fd < MAX_PROCESS_FILES && procs[i].fds[fd] != 0
    ensures procs[i].fds[fd] in descs
    ensures Counted(Release(descs, procs[i].fds[fd]), SetFd(procs, i, fd, 0), leaked)
  {
    var d := procs[i].fds[fd];
    NoDangling(descs, procs, leaked, i, fd);
    forall x {:trigger RefCount(Release(descs, d), x)} | x != 0
      ensures RefCount(Release(descs, d), x) == Slots(SetFd(procs, i, fd, 0), x) + Lost(leaked, x)
    {
      SlotsSetFd(procs, i, fd, 0, x);
      var rc := RefCount(descs, x);
    }
  }

  lemma OpenCounted(descs: Memory, procs: seq<Proc>, leaked: Leaks, i: nat, fd: nat, d: nat, desc: Description)
    requires Counted(descs, procs, leaked) && i < |procs| && fd < MAX_PROCESS_FILES && procs[i].fds[fd] == 0
    requires d != 0 && d !in descs && desc.refCount == 1
    ensures Counted(descs[d := desc], SetFd(procs, i, fd, d), leaked)
  {
    forall x {:trigger RefCount(descs[d := desc], x)} | x != 0
      ensures RefCount(descs[d := desc], x) == Slots(SetFd(procs, i, fd, d), x) + Lost(leaked, x)
    {
      SlotsSetFd(procs, i, fd, d, x);
      var rc := RefCount(descs, x);
    }
  }

  /** Becoming a zombie changes no slot. */
  lemma ZombieCounted(descs: Memory, procs: seq<Proc>, leaked: Leaks, i: nat)
    requires Counted(descs, procs, leaked) && i < |procs|
    ensures Counted(descs, procs[i := procs[i].(zombie := true)], leaked)
  {
    forall x {:trigger RefCount(descs, x)} | x != 0
      ensures RefCount(descs, x) == Slots(procs[i := procs[i].(zombie := true)], x) + Lost(leaked, x)
    {
      SlotsUpdate(procs, i, procs[i].(zombie := true), x);
    }
  }

  lemma ForkCounted(descs: Memory, procs: seq<Proc>, leaked: Leaks, i: nat, descs': Memory)
    requires Counted(descs, procs, leaked) && i < |procs| && descs'.Keys == descs.Keys
    requires forall d :: d in descs' ==>
               descs'[d] == descs[d].(refCount := descs[d].refCount + Held(procs[i].fds, d))
    ensures Counted(descs', Insert(procs, i + 1, Proc(false, procs[i].fds)), leaked)
  {
    var child := Proc(false, procs[i].fds);
    var procs' := Insert(procs, i + 1, child);
    forall d {:trigger RefCount(descs', d)} | d != 0
      ensures RefCount(descs', d) == Slots(procs', d) + Lost(leaked, d)
    {
      SlotsInsert(procs, i + 1, child, d);
      SlotsAtLeast(procs, i, d);
      var rc := RefCount(descs, d);
    }
  }

  lemma ReapCounted(descs: Memory, procs: seq<Proc>, leaked: Leaks, i: nat)
    requires Counted(descs, procs, leaked) && i < |procs|
    ensures Counted(descs, Without(procs, i), leaked + [procs[i]])
  {
    var rest := Without(procs, i);
    forall d {:trigger RefCount(descs, d)} | d != 0
      ensures RefCount(descs, d) == Slots(rest, d) + Lost(leaked + [procs[i]], d)
    {
      SlotsInsert(rest, i, procs[i], d);
      assert Insert(rest, i, procs[i]) == procs;
      assert (leaked + [procs[i]])[..|leaked|] == leaked;
    }
  }

  /** `descs'` is `descs` without one reference for every slot of a table. */
  ghost predicate Released(descs: Memory, fds: seq<nat>, descs': Memory) {
    && (forall d :: d in descs' ==> d in descs)
    && forall d :: d in descs ==>
         && (d in descs' <==> descs[d].refCount > Held(fds, d))
         && (d in descs' ==> descs'[d] == descs[d].(refCount := descs[d].refCount - Held(fds, d)))
  }

  lemma ReleasedNext(descs: Memory, fds: seq<nat>, k: nat, descs': Memory)
    requires k < |fds| && Released(descs, fds[..k], descs') && 0 !in descs
    ensures fds[k] == 0 ==> Released(descs, fds[..k + 1], descs')
    ensures fds[k] in descs' && descs'[fds[k]].refCount >= 1 ==>
              Released(descs, fds[..k + 1], Release(descs', fds[k]))
  {
    assert fds[..k + 1][..k] == fds[..k];
  }

  // ---- the kernel ----

  class Kernel {
    var descs: Memory
    var procs: seq<Proc>
    ghost var leaked: Leaks

    ghost predicate Valid()
      reads this
    {
      Counted(descs, procs, leaked)
    }

    /** init_multitasking: one process with an empty table. */
    constructor ()
      ensures Valid() && Clean(procs, leaked) && descs == map[] && leaked == []
      ensures procs == [Proc(false, seq(MAX_PROCESS_FILES, i => 0))]
    {
      descs, leaked := map[], [];
      procs := [Proc(false, seq(MAX_PROCESS_FILES, i => 0))];
      new;
      forall d | d != 0 ensures Slots(procs, d) == 0 {
        HeldPositive(procs[0].fds, d);
        assert procs[..0] == [];
      }
    }

    /** v_open on a resolved node; `address` is what kmalloc returns. */
    method Open(i: nat, node: nat, flags: nat, address: nat) returns (fd: int)
      requires Valid() && i < |procs| && !procs[i].zombie && address != 0 && address !in descs
      modifies `descs, `procs
      ensures Valid()
      ensures old(Clean(procs, leaked)) ==> Clean(procs, leaked)
      ensures fd == -EMFILE <==> 0 !in old(procs[i].fds)
      ensures fd < 0 ==> fd == -EMFILE && descs == old(descs) && procs == old(procs)
      ensures fd >= 0 ==>
                && fd < MAX_PROCESS_FILES && old(procs[i].fds)[fd] == 0
                && (forall k :: 0 <= k < fd ==> old(procs[i].fds)[k] != 0)
                && procs == SetFd(old(procs), i, fd, address)
                && descs == old(descs)[address := Description(node, 0, flags, 1)]
    {
      fd := FindFree(i, 0);
      if fd < 0 { return -EMFILE; }
      var desc := Description(node, 0, flags, 1);
      OpenCounted(descs, procs, leaked, i, fd, address, desc);
      descs := descs[address := desc];
      procs := SetFd(procs, i, fd, address);
    }

    /** The search loop of v_open and F_DUPFD: the first free slot from `start` on, or -1. */
    method FindFree(i: nat, start: nat) returns (fd: int)
      requires i < |procs| && |procs[i].fds| == MAX_PROCESS_FILES
      ensures fd == -1 <==> forall k :: start <= k < MAX_PROCESS_FILES ==> procs[i].fds[k] != 0
      ensures fd != -1 ==>
                && start <= fd < MAX_PROCESS_FILES && procs[i].fds[fd] == 0
                && forall k :: start <= k < fd ==> procs[i].fds[k] != 0
    {
      fd := start;
      while fd < MAX_PROCESS_FILES
        invariant start <= fd && forall k :: start <= k < fd && k < MAX_PROCESS_FILES ==> procs[i].fds[k] != 0
      {
        if procs[i].fds[fd] == 0 { return; }
        fd := fd + 1;
      }
      fd := -1;
    }

    /** sys_fcntl with F_DUPFD and a non-negative argument. */
    method DupFd(i: nat, fd: int, arg: nat) returns (r: int)
      requires Valid() && i < |procs| && !procs[i].zombie
      modifies `descs, `procs
      ensures Valid()
      ensures old(Clean(procs, leaked)) ==> Clean(procs, leaked)
      ensures r == -EBADF <==> !(0 <= fd < MAX_PROCESS_FILES && old(procs[i].fds)[fd] != 0)
      ensures r < 0 ==> (r == -EBADF || r == -EMFILE) && descs == old(descs) && procs == old(procs)
      ensures r == -EMFILE ==> forall k :: arg <= k < MAX_PROCESS_FILES ==> old(procs[i].fds)[k] != 0
      ensures r >= 0 ==>
                && arg <= r < MAX_PROCESS_FILES && old(procs[i].fds)[r] == 0
                && (forall k :: arg <= k < r ==> old(procs[i].fds)[k] != 0)
                && procs == SetFd(old(procs), i, r, old(procs[i].fds)[fd])
                && old(procs[i].fds)[fd] in old(descs) && descs == AddRef(old(descs), old(procs[i].fds)[fd])
    {
      if fd < 0 || fd >= MAX_PROCESS_FILES || procs[i].fds[fd] == 0 { return -EBADF; }
      r := FindFree(i, arg);
      if r < 0 { return -EMFILE; }
      DupCounted(descs, procs, leaked, i, fd, r);
      var d := procs[i].fds[fd];
      procs := SetFd(procs, i, r, d);
      descs := AddRef(descs, d);
    }

    /** v_close: the description is freed with its last slot. */
    method Close(i: nat, fd: int) returns (r: int)
      requires Valid() && i < |procs| && !procs[i].zombie
      modifies `descs, `procs
      ensures Valid()
      ensures old(Clean(procs, leaked)) ==> Clean(procs, leaked)
      ensures r == (if 0 <= fd < MAX_PROCESS_FILES && old(procs[i].fds)[fd] != 0 then 0 else -EBADF)
      ensures r != 0 ==> descs == old(descs) && procs == old(procs)
      ensures r == 0 ==>
                var d := old(procs[i].fds)[fd];
                && procs == SetFd(old(procs), i, fd, 0)
                && d in old(descs) && descs == Release(old(descs), d)
                && (d !in descs <==> Slots(old(procs), d) == 1 && Lost(leaked, d) == 0)
    {
      if fd < 0 || fd >= MAX_PROCESS_FILES || procs[i].fds[fd] == 0 { return -EBADF; }
      ghost var rc := RefCount(descs, procs[i].fds[fd]);
      NoDangling(descs, procs, leaked, i, fd);
      CloseCounted(descs, procs, leaked, i, fd);
      var d := procs[i].fds[fd];
      descs := Release(descs, d);
      procs := SetFd(procs, i, fd, 0);
      r := 0;
    }

    /** The table loop of exit_process. */
    method Exit(i: nat)
      requires Valid() && i < |procs| && !procs[i].zombie
      modifies `descs, `procs
      ensures Valid()
      ensures old(Clean(procs, leaked)) ==> Clean(procs, leaked)
      ensures procs == old(procs)[i := Proc(true, seq(MAX_PROCESS_FILES, k => 0))]
      // Every description loses as many references as the table has slots for it; it goes
      // exactly when these were all, and otherwise keeps its node, offset and flags.
      ensures Released(old(descs), old(procs)[i].fds, descs)
    {
      ZombieCounted(descs, procs, leaked, i);
      procs := procs[i := procs[i].(zombie := true)];
      ghost var fds0 := procs[i].fds;
      var fd := 0;
      while fd < MAX_PROCESS_FILES
        invariant 0 <= fd <= MAX_PROCESS_FILES && Valid() && |procs| == old(|procs|)
        invariant procs == old(procs)[i := procs[i]] && procs[i].zombie
        invariant forall k :: 0 <= k < MAX_PROCESS_FILES ==> procs[i].fds[k] == if k < fd then 0 else fds0[k]
        invariant Released(old(descs), fds0[..fd], descs)
      {
        ReleasedNext(old(descs), fds0, fd, descs);
        if procs[i].fds[fd] != 0 {
          NoDangling(descs, procs, leaked, i, fd);
          CloseCounted(descs, procs, leaked, i, fd);
          var d := procs[i].fds[fd];
          procs := SetFd(procs, i, fd, 0);
          descs := Release(descs, d);
        }
        fd := fd + 1;
      }
      assert procs[i].fds == seq(MAX_PROCESS_FILES, k => 0) && fds0[..MAX_PROCESS_FILES] == fds0;
    }

    /** The inheritance loop of fork_process and sys_posix_spawn, and the insertion of the
        child behind its parent. */
    method Fork(i: nat)
      requires Valid() && i < |procs| && !procs[i].zombie
      modifies `descs, `procs
      ensures Valid()
      ensures old(Clean(procs, leaked)) ==> Clean(procs, leaked)
      ensures procs == Insert(old(procs), i + 1, old(procs)[i])
      ensures descs.Keys == old(descs).Keys
      ensures forall d :: d in descs ==>
                descs[d] == old(descs)[d].(refCount := old(descs)[d].refCount + Held(old(procs)[i].fds, d))
    {
      ghost var descs0, table := descs, procs[i].fds;
      var fds: seq<nat> := [];
      while |fds| < MAX_PROCESS_FILES
        invariant procs == old(procs) && |fds| <= MAX_PROCESS_FILES && fds == table[..|fds|]
        invariant descs.Keys == descs0.Keys
        invariant forall d :: d in descs ==>
                    descs[d] == descs0[d].(refCount := descs0[d].refCount + Held(table[..|fds|], d))
      {
        var d := procs[i].fds[|fds|];
        assert table[..|fds| + 1][..|fds|] == table[..|fds|];
        if d != 0 {
          NoDangling(descs0, procs, leaked, i, |fds|);
          descs := AddRef(descs, d);
        }
        fds := fds + [d];
      }
      assert table[..MAX_PROCESS_FILES] == table;
      ForkCounted(descs0, procs, leaked, i, descs);
      procs := Insert(procs, i + 1, Proc(false, fds));
    }

    /** sys__exit: the table is left as it is. */
    method ImmediateExit(i: nat)
      requires Valid() && i < |procs| && !procs[i].zombie
      modifies `procs
      ensures Valid() && procs == old(procs)[i := old(procs)[i].(zombie := true)]
    {
      ZombieCounted(descs, procs, leaked, i);
      procs := procs[i := procs[i].(zombie := true)];
    }

    /** wait_process and sys_waitpid free a zombie; what its table still holds is lost. */
    method Reap(i: nat)
      requires Valid() && i < |procs| && procs[i].zombie
      modifies `procs, `leaked
      ensures Valid() && procs == Without(old(procs), i)
      ensures old(Clean(procs, leaked)) ==> Clean(procs, leaked)
      ensures leaked == old(leaked) + [old(procs)[i]]
    {
      ReapCounted(descs, procs, leaked, i);
      leaked := leaked + [procs[i]];
      procs := Without(procs, i);
    }
  }

  /** A client: what a parent has opened survives in its own table when its child, which
      inherited it, exits and is reaped. */
  method ChildExits(node: nat, d: nat) returns (kernel: Kernel, fd: int)
    requires d != 0
    ensures fd == 0 && kernel.Valid() && kernel.descs == map[d := Description(node, 0, 0, 1)]
    ensures |kernel.procs| == 1 && kernel.procs[0].fds[0] == d
  {
    kernel := new Kernel();
    assert kernel.procs[0].fds[0] == 0;
    fd := kernel.Open(0, node, 0, d);
    kernel.Fork(0);
    kernel.Exit(1);
    kernel.Reap(1);
  }

  /** A client: a child that ends through sys__exit takes its reference with it. After it has
      been reaped one slot holds the description, and the count says two. */
  method CountLost(node: nat, d: nat) returns (kernel: Kernel)
    requires d != 0
    ensures kernel.Valid() && kernel.descs == map[d := Description(node, 0, 0, 2)]
    ensures Slots(kernel.procs, d) == 1 && Lost(kernel.leaked, d) == 1
  {
    kernel := new Kernel();
    ghost var empty := kernel.procs[0].fds;
    assert empty[0] == 0;
    HeldPositive(empty, d);
    HeldUpdate(empty, 0, d, d);
    var fd := kernel.Open(0, node, 0, d);
    kernel.Fork(0);
    kernel.ImmediateExit(1);
    kernel.Reap(1);
    assert kernel.procs[..0] == [] && kernel.leaked[..0] == [];
  }

  /** A client: a process opens sixteen files, which get the descriptors from 0 on, and no more. */
  method SixteenFiles(node: nat) returns (fds: seq<int>, last: int)
    ensures |fds| == 16 && (forall k :: 0 <= k < 16 ==> fds[k] == k) && last == -24
  {
    var kernel := new Kernel();
    fds := [];
    for k := 0 to 16
      invariant kernel.Valid() && fresh(kernel) && |kernel.procs| == 1 && !kernel.procs[0].zombie
      invariant forall j :: 0 <= j < 16 ==> kernel.procs[0].fds[j] == if j < k then j + 1 else 0
      invariant forall d :: d in kernel.descs ==> d <= k
      invariant |fds| == k && forall j :: 0 <= j < k ==> fds[j] == j
    {
      assert kernel.procs[0].fds[k] == 0;
      var fd := kernel.Open(0, node, 0, k + 1);
      fds := fds + [fd];
    }
    last := kernel.Open(0, node, 0, 17);
  }
}
