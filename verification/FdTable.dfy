/** Monitored file descriptors and the syscallbuf's cache of them in tracee memory (`fd_table.rs`). */
module FdTable {
  import opened Words

  const SYSCALLBUF_FDS_DISABLED_SIZE: nat := 1024
  const LAST: nat := SYSCALLBUF_FDS_DISABLED_SIZE - 1

  type TaskId = nat
  type TableId = nat
  type VmId = nat
  type Monitor = nat

  datatype Table = Table(fds: map<int, Monitor>, fdCountBeyondLimit: int)

  /** A task, its address space and its fd table; `globals` once the preload library is set up. */
  datatype Task = Task(vm: VmId, table: TableId, globals: bool)

  /** The session: tables may be shared by address spaces, and an address space may use several tables. */
  datatype World = World(tasks: map<TaskId, Task>, tables: map<TableId, Table>, disabled: map<VmId, seq<bool>>)

  function Slot(fd: int): nat
    requires fd >= 0
  {
    if fd >= SYSCALLBUF_FDS_DISABLED_SIZE then LAST else fd
  }

  // ----- What the cache promises

  /** A table that monitors an fd of slot `i`; the last slot stands for every fd from 1023 up. */
  ghost predicate TableWants(t: Table, i: nat) {
    if i < LAST then i in t.fds else exists fd: int :: fd >= LAST && fd in t.fds
  }

  ghost predicate Wanted(w: World, vm: VmId, i: nat) {
    exists t :: t in w.tasks && w.tasks[t].vm == vm && w.tasks[t].table in w.tables &&
      TableWants(w.tables[w.tasks[t].table], i)
  }

  ghost predicate HasGlobals(w: World, vm: VmId) {
    exists t :: t in w.tasks && w.tasks[t].vm == vm && w.tasks[t].globals
  }

  /** The cache of `vm` agrees with the monitored fds of all tasks in it. */
  ghost predicate Exact(w: World, vm: VmId)
    requires vm in w.disabled && |w.disabled[vm]| == SYSCALLBUF_FDS_DISABLED_SIZE
  {
    forall i :: 0 <= i < SYSCALLBUF_FDS_DISABLED_SIZE ==> (w.disabled[vm][i] <==> Wanted(w, vm, i))
  }

  /** No monitored fd bypasses the tracer. */
  ghost predicate Safe(w: World, vm: VmId)
    requires vm in w.disabled && |w.disabled[vm]| == SYSCALLBUF_FDS_DISABLED_SIZE
  {
    forall i :: 0 <= i < SYSCALLBUF_FDS_DISABLED_SIZE ==> (Wanted(w, vm, i) ==> w.disabled[vm][i])
  }

  ghost function BeyondLimit(fds: map<int, Monitor>): set<int> {
    set fd | fd in fds && fd >= SYSCALLBUF_FDS_DISABLED_SIZE
  }

  ghost predicate CountOk(t: Table) {
    t.fdCountBeyondLimit == |BeyondLimit(t.fds)|
  }

  ghost predicate WellFormed(w: World) {
    && (forall t <- w.tasks :: w.tasks[t].table in w.tables && w.tasks[t].vm in w.disabled)
    && (forall vm <- w.disabled :: |w.disabled[vm]| == SYSCALLBUF_FDS_DISABLED_SIZE)
    && (forall k <- w.tables :: CountOk(w.tables[k]) && forall fd <- w.tables[k].fds :: fd >= 0)
    && (forall t, u :: t in w.tasks && u in w.tasks && w.tasks[t].vm == w.tasks[u].vm ==>
       w.tasks[t].globals == w.tasks[u].globals)
  }

  ghost predicate AllSafe(w: World) {
    WellFormed(w) && forall vm <- w.disabled :: HasGlobals(w, vm) ==> Safe(w, vm)
  }

  ghost predicate AllExact(w: World) {
    WellFormed(w) && forall vm <- w.disabled :: HasGlobals(w, vm) ==> Exact(w, vm)
  }

  // ----- Changing one fd of one table

  /** Sets or clears the monitor of `fd` and keeps the count of fds beyond the cached range. */
  function SetFd(t: Table, fd: int, v: Option<Monitor>): Table {
    var beyond := fd >= SYSCALLBUF_FDS_DISABLED_SIZE;
    if v.Some? then
      Table(t.fds[fd := v.value], t.fdCountBeyondLimit + if beyond && fd !in t.fds then 1 else 0)
    else
      Table(t.fds - {fd}, t.fdCountBeyondLimit - if beyond && fd in t.fds then 1 else 0)
  }

  /** `is_fd_monitored_in_any_task`. */
  predicate TableMonitors(t: Table, i: nat) {
    i in t.fds || (i >= LAST && t.fdCountBeyondLimit > 0)
  }

  predicate MonitoredInAnyTask(w: World, vm: VmId, i: nat) {
    exists t <- w.tasks :: w.tasks[t].vm == vm && w.tasks[t].table in w.tables &&
      TableMonitors(w.tables[w.tasks[t].table], i)
  }

  predicate UsesTable(w: World, vm: VmId, k: TableId) {
    exists t <- w.tasks :: w.tasks[t].vm == vm && w.tasks[t].table == k && w.tasks[t].globals
  }

  /** The cache of `vm` with slot `i` rewritten, if a task in `vm` uses table `k`. */
  function RefreshedArray(w: World, k: TableId, i: nat, vm: VmId): seq<bool>
    requires vm in w.disabled
  {
    if UsesTable(w, vm, k) && i < |w.disabled[vm]| then w.disabled[vm][i := MonitoredInAnyTask(w, vm, i)]
    else w.disabled[vm]
  }

  /** Rewrites the slot of `fd` in every address space that has a task using table `k`. */
  function Refresh(w: World, k: TableId, fd: int): World
    requires fd >= 0
  {
    w.(disabled := map vm <- w.disabled :: RefreshedArray(w, k, Slot(fd), vm))
  }

  function SetMonitor(w: World, k: TableId, fd: int, v: Option<Monitor>): World
    requires k in w.tables && fd >= 0
  {
    Refresh(w.(tables := w.tables[k := SetFd(w.tables[k], fd, v)]), k, fd)
  }

  /** The count stays right and in particular never drops below zero. */
  lemma SetFdKeepsCount(t: Table, fd: int, v: Option<Monitor>)
    requires CountOk(t)
    ensures CountOk(SetFd(t, fd, v)) && SetFd(t, fd, v).fdCountBeyondLimit >= 0
  {
    var before, after := BeyondLimit(t.fds), BeyondLimit(SetFd(t, fd, v).fds);
    if fd >= SYSCALLBUF_FDS_DISABLED_SIZE {
      assert after == if v.Some? then before + {fd} else before - {fd};
    } else {
      assert after == before;
    }
  }

  lemma TableMonitorsIsWants(t: Table, i: nat)
    requires CountOk(t) && i <= LAST
    ensures TableMonitors(t, i) <==> TableWants(t, i)
  {
    var beyond := BeyondLimit(t.fds);
    if i == LAST && t.fdCountBeyondLimit > 0 {
      var fd :| fd in beyond;
      assert fd >= LAST && fd in t.fds;
    }
    if i == LAST && TableWants(t, i) && i !in t.fds {
      var fd: int :| fd >= LAST && fd in t.fds;
      assert fd in beyond;
    }
  }

  lemma MonitoredIsWanted(w: World, vm: VmId, i: nat)
    requires WellFormed(w) && i <= LAST
    ensures MonitoredInAnyTask(w, vm, i) <==> Wanted(w, vm, i)
  {
    forall k | k in w.tables
      ensures TableMonitors(w.tables[k], i) <==> TableWants(w.tables[k], i)
    {
      TableMonitorsIsWants(w.tables[k], i);
    }
  }

  lemma SetFdKeepsOtherSlots(t: Table, fd: int, v: Option<Monitor>, i: nat)
    requires fd >= 0 && i <= LAST && i != Slot(fd)
    ensures TableWants(SetFd(t, fd, v), i) <==> TableWants(t, i)
  {
    var t' := SetFd(t, fd, v);
    if i == LAST {
      assert forall g: int :: g >= LAST ==> (g in t'.fds <==> g in t.fds);
    }
  }

  /** Changing an fd changes what an address space wants in the slot of that fd only. */
  lemma OtherSlotsKept(w: World, k: TableId, fd: int, v: Option<Monitor>, vm: VmId, i: nat)
    requires WellFormed(w) && k in w.tables && fd >= 0 && i <= LAST
    requires i != Slot(fd) || !(exists t <- w.tasks :: w.tasks[t].vm == vm && w.tasks[t].table == k)
    ensures Wanted(w.(tables := w.tables[k := SetFd(w.tables[k], fd, v)]), vm, i) <==> Wanted(w, vm, i)
  {
    var w' := w.(tables := w.tables[k := SetFd(w.tables[k], fd, v)]);
    forall t | t in w.tasks && w.tasks[t].vm == vm
      ensures TableWants(w'.tables[w.tasks[t].table], i) <==> TableWants(w.tables[w.tasks[t].table], i)
    {
      if w.tasks[t].table == k {
        SetFdKeepsOtherSlots(w.tables[k], fd, v, i);
      }
    }
  }

  lemma SetMonitorWellFormed(w: World, k: TableId, fd: int, v: Option<Monitor>)
    requires WellFormed(w) && k in w.tables && fd >= 0
    ensures WellFormed(w.(tables := w.tables[k := SetFd(w.tables[k], fd, v)]))
    ensures WellFormed(SetMonitor(w, k, fd, v))
  {
    SetFdKeepsCount(w.tables[k], fd, v);
  }

  /**
   * One change to one table keeps every slot of every address space as right as it was, and makes its own
   * slot right.
   */
  lemma SetMonitorSlot(w: World, k: TableId, fd: int, v: Option<Monitor>, vm: VmId, i: nat)
    requires WellFormed(w) && k in w.tables && fd >= 0 && vm in w.disabled && i <= LAST && HasGlobals(w, vm)
    ensures
      var w' := SetMonitor(w, k, fd, v);
      && vm in w'.disabled && |w'.disabled[vm]| == SYSCALLBUF_FDS_DISABLED_SIZE
      && ((w'.disabled[vm][i] <==> Wanted(w', vm, i)) ||
          (w'.disabled[vm][i] == w.disabled[vm][i] && (Wanted(w', vm, i) <==> Wanted(w, vm, i))))
  {
    var mid := w.(tables := w.tables[k := SetFd(w.tables[k], fd, v)]);
    var w' := SetMonitor(w, k, fd, v);
    SetMonitorWellFormed(w, k, fd, v);
    assert Wanted(w', vm, i) <==> Wanted(mid, vm, i);
    if i == Slot(fd) && UsesTable(mid, vm, k) {
      MonitoredIsWanted(mid, vm, i);
    } else {
      assert w'.disabled[vm][i] == w.disabled[vm][i];
      OtherSlotsKept(w, k, fd, v, vm, i);
    }
  }

  lemma SetMonitorKeepsCaches(w: World, k: TableId, fd: int, v: Option<Monitor>)
    requires WellFormed(w) && k in w.tables && fd >= 0
    ensures AllSafe(w) ==> AllSafe(SetMonitor(w, k, fd, v))
    ensures AllExact(w) ==> AllExact(SetMonitor(w, k, fd, v))
  {
    var w' := SetMonitor(w, k, fd, v);
    SetMonitorWellFormed(w, k, fd, v);
    forall vm, i | vm in w'.disabled && HasGlobals(w', vm) && 0 <= i <= LAST
      ensures AllExact(w) ==> (w'.disabled[vm][i] <==> Wanted(w', vm, i))
      ensures AllSafe(w) ==> (Wanted(w', vm, i) ==> w'.disabled[vm][i])
    {
      SetMonitorSlot(w, k, fd, v, vm, i);
    }
  }

  // ----- Tasks coming and going

  datatype Op =
    | Set(table: TableId, fd: int, v: Option<Monitor>)                                  // add, dup or close
    | Clone(parent: TaskId, child: TaskId, vm: VmId, newTable: TableId)                 // shares what is not new
    | Unshare(task: TaskId, newTable: TableId)
    | Exec(task: TaskId, vm: VmId, newTable: TableId, mem: seq<bool>)
    | Exit(task: TaskId)
    | PreloadInit(task: TaskId)

  /** `vm` and `newTable` are either fresh or, for a clone, those of the parent. */
  predicate Enabled(w: World, op: Op) {
    match op
    case Set(k, fd, _) => k in w.tables && fd >= 0
    case Clone(parent, child, vm, k) =>
      && parent in w.tasks && child !in w.tasks
      && (vm == w.tasks[parent].vm || vm !in w.disabled)
      && (k == w.tasks[parent].table || k !in w.tables)
    case Unshare(t, k) => t in w.tasks && k !in w.tables
    case Exec(t, vm, k, mem) => t in w.tasks && vm !in w.disabled && k !in w.tables &&
      |mem| == SYSCALLBUF_FDS_DISABLED_SIZE
    case Exit(t) => t in w.tasks
    case PreloadInit(t) => t in w.tasks
  }

  /** The slots that `init_syscallbuf_fds_disabled` writes: a slot is set if a task of `vm` monitors an fd of it. */
  function InitialArray(w: World, vm: VmId): seq<bool> {
    seq(SYSCALLBUF_FDS_DISABLED_SIZE, i => SomeFdOfSlot(w, vm, i))
  }

  predicate SomeFdOfSlot(w: World, vm: VmId, i: int) {
    exists t <- w.tasks :: w.tasks[t].vm == vm && w.tasks[t].table in w.tables &&
      TableHasSlot(w.tables[w.tasks[t].table], i)
  }

  predicate SlotIn(fds: set<int>, i: int) {
    exists fd <- fds :: fd >= 0 && Slot(fd) == i
  }

  predicate TableHasSlot(t: Table, i: int) {
    SlotIn(t.fds.Keys, i)
  }

  function Apply(w: World, op: Op): World
    requires WellFormed(w) && Enabled(w, op)
  {
    match op
    case Set(k, fd, v) => SetMonitor(w, k, fd, v)
    case Clone(parent, child, vm, k) =>
      var p := w.tasks[parent];
      World(w.tasks[child := Task(vm, k, p.globals)], w.tables[k := w.tables[p.table]],
        w.disabled[vm := w.disabled[p.vm]])
    case Unshare(t, k) =>
      w.(tasks := w.tasks[t := w.tasks[t].(table := k)], tables := w.tables[k := w.tables[w.tasks[t].table]])
    case Exec(t, vm, k, mem) =>
      World(w.tasks[t := Task(vm, k, false)], w.tables[k := w.tables[w.tasks[t].table]], w.disabled[vm := mem])
    case Exit(t) => w.(tasks := w.tasks - {t})
    case PreloadInit(t) =>
      var vm := w.tasks[t].vm;
      World(map u <- w.tasks :: if w.tasks[u].vm == vm then w.tasks[u].(globals := true) else w.tasks[u],
            w.tables, w.disabled[vm := InitialArray(w, vm)])
  }

  lemma ApplyWellFormed(w: World, op: Op)
    requires WellFormed(w) && Enabled(w, op)
    ensures WellFormed(Apply(w, op))
  {
    match op {
      case Set(k, fd, v) => SetMonitorWellFormed(w, k, fd, v);
      case Clone(_, _, _, _) => CloneWellFormed(w, op);
      case Unshare(_, _) => LeaveWellFormed(w, op);
      case Exec(_, _, _, _) => LeaveWellFormed(w, op);
      case Exit(_) => LeaveWellFormed(w, op);
      case PreloadInit(_) => PreloadWellFormed(w, op);
    }
  }

  lemma CloneWellFormed(w: World, op: Op)
    requires WellFormed(w) && Enabled(w, op) && op.Clone?
    ensures WellFormed(Apply(w, op))
  {
  }

  lemma LeaveWellFormed(w: World, op: Op)
    requires WellFormed(w) && Enabled(w, op) && (op.Unshare? || op.Exec? || op.Exit?)
    ensures WellFormed(Apply(w, op))
  {
  }

  lemma PreloadWellFormed(w: World, op: Op)
    requires WellFormed(w) && Enabled(w, op) && op.PreloadInit?
    ensures WellFormed(Apply(w, op))
  {
  }

  lemma CloneWants(w: World, op: Op, vm: VmId, i: nat)
    requires WellFormed(w) && Enabled(w, op) && op.Clone? && vm in w.disabled
    ensures Wanted(Apply(w, op), vm, i) <==> Wanted(w, vm, i)
  {
    var w' := Apply(w, op);
    assert forall t <- w.tasks ::
        w'.tasks[t] == w.tasks[t] && w'.tables[w.tasks[t].table] == w.tables[w.tasks[t].table];
    if Wanted(w', vm, i) {
      var t :| t in w'.tasks && w'.tasks[t].vm == vm && TableWants(w'.tables[w'.tasks[t].table], i);
      var u := if t == op.child then op.parent else t;
      assert w.tasks[u].vm == vm && TableWants(w.tables[w.tasks[u].table], i);
    }
    if Wanted(w, vm, i) {
      var t :| t in w.tasks && w.tasks[t].vm == vm && TableWants(w.tables[w.tasks[t].table], i);
      assert t in w'.tasks && w'.tasks[t].vm == vm;
    }
  }

  /** A forked address space wants what the parent's own table wants. */
  lemma ForkWants(w: World, op: Op, i: nat)
    requires WellFormed(w) && Enabled(w, op) && op.Clone? && op.vm !in w.disabled
    ensures Wanted(Apply(w, op), op.vm, i) <==> TableWants(w.tables[w.tasks[op.parent].table], i)
  {
    var w' := Apply(w, op);
    assert forall t <- w'.tasks :: w'.tasks[t].vm == op.vm ==> t == op.child;
    assert w'.tables[w'.tasks[op.child].table] == w.tables[w.tasks[op.parent].table];
    if TableWants(w.tables[w.tasks[op.parent].table], i) {
      assert op.child in w'.tasks && w'.tasks[op.child].vm == op.vm;
    }
  }

  lemma UnshareWants(w: World, op: Op, vm: VmId, i: nat)
    requires WellFormed(w) && Enabled(w, op) && op.Unshare?
    ensures Wanted(Apply(w, op), vm, i) <==> Wanted(w, vm, i)
  {
    var w' := Apply(w, op);
    assert forall t <- w.tasks :: w'.tables[w'.tasks[t].table] == w.tables[w.tasks[t].table];
    assert w'.tasks.Keys == w.tasks.Keys;
  }

  /** The tasks of an address space other than `t` want slot `i`. */
  ghost predicate OthersWant(w: World, t: TaskId, vm: VmId, i: nat) {
    exists u :: u in w.tasks && u != t && w.tasks[u].vm == vm && w.tasks[u].table in w.tables &&
                TableWants(w.tables[w.tasks[u].table], i)
  }

  ghost predicate OthersHaveGlobals(w: World, t: TaskId, vm: VmId) {
    exists u :: u in w.tasks && u != t && w.tasks[u].vm == vm && w.tasks[u].globals
  }

  /** From `w` to `w'` task `t` left its address space, and possibly came back in a new one that is not set up yet. */
  ghost predicate Left(w: World, w': World, t: TaskId) {
    && t in w.tasks
    && (forall u :: u in w.tasks && u != t ==> u in w'.tasks && w'.tasks[u] == w.tasks[u])
    && (forall u :: u in w'.tasks && u != t ==> u in w.tasks)
    && (t in w'.tasks ==> w'.tasks[t].vm !in w.disabled && !w'.tasks[t].globals)
    && (forall k <- w.tables :: k in w'.tables && w'.tables[k] == w.tables[k])
    && (forall vm <- w.disabled :: vm in w'.disabled && w'.disabled[vm] == w.disabled[vm])
  }

  lemma LeaveIsLeft(w: World, op: Op)
    requires WellFormed(w) && Enabled(w, op) && (op.Exit? || op.Exec?)
    ensures Left(w, Apply(w, op), op.task)
  {
  }

  /** A task that exits or execs stops wanting things in its old address space. */
  lemma LeaveWants(w: World, w': World, t: TaskId, vm: VmId, i: nat)
    requires WellFormed(w) && Left(w, w', t) && vm in w.disabled
    ensures Wanted(w', vm, i) <==> OthersWant(w, t, vm, i)
  {
    if OthersWant(w, t, vm, i) {
      var u :| u in w.tasks && u != t && w.tasks[u].vm == vm && TableWants(w.tables[w.tasks[u].table], i);
      assert u in w'.tasks && w'.tasks[u] == w.tasks[u];
    }
    if Wanted(w', vm, i) {
      var u :| u in w'.tasks && w'.tasks[u].vm == vm && w'.tasks[u].table in w'.tables &&
        TableWants(w'.tables[w'.tasks[u].table], i);
      assert u != t && u in w.tasks;
    }
  }

  lemma LeaveGlobals(w: World, w': World, t: TaskId, vm: VmId)
    requires WellFormed(w) && Left(w, w', t)
    ensures HasGlobals(w', vm) <==> OthersHaveGlobals(w, t, vm)
  {
    if HasGlobals(w', vm) {
      var u :| u in w'.tasks && w'.tasks[u].vm == vm && w'.tasks[u].globals;
      assert u != t && w'.tasks[u] == w.tasks[u];
    }
    if OthersHaveGlobals(w, t, vm) {
      var u :| u in w.tasks && u != t && w.tasks[u].vm == vm && w.tasks[u].globals;
      assert u in w'.tasks && w'.tasks[u] == w.tasks[u];
    }
  }

  /** What an address space wants is what its other tasks want and, in its own, what the leaving task wants. */
  lemma WantedSplits(w: World, t: TaskId, vm: VmId, i: nat)
    requires WellFormed(w) && t in w.tasks
    ensures Wanted(w, vm, i) <==>
            OthersWant(w, t, vm, i) || (w.tasks[t].vm == vm && TableWants(w.tables[w.tasks[t].table], i))
  {
  }

  /**
   * The operation takes the last monitor of slot `i` out of an address space whose cache stays, or copies a
   * cache without it.
   */
  ghost predicate LosesSlot(w: World, op: Op, vm: VmId, i: nat)
    requires WellFormed(w) && Enabled(w, op)
  {
    match op
    case Clone(parent, _, v, _) =>
      var p := w.tasks[parent];
      vm == v && v !in w.disabled && Wanted(w, p.vm, i) && !TableWants(w.tables[p.table], i)
    case Exec(t, _, _, _) => vm == w.tasks[t].vm && TableWants(w.tables[w.tasks[t].table], i) &&
      !OthersWant(w, t, vm, i)
    case Exit(t) => vm == w.tasks[t].vm && TableWants(w.tables[w.tasks[t].table], i) && !OthersWant(w, t, vm, i)
    case _ => false
  }

  /**
   * A fork of a set-up task copies a cache that its own table accounts for, and a task that leaves others behind
   * in a set-up address space monitored nothing that they do not.
   */
  ghost predicate LosesNothing(w: World, op: Op)
    requires WellFormed(w) && Enabled(w, op)
  {
    match op
    case Clone(parent, _, vm, _) =>
      var p := w.tasks[parent];
      vm !in w.disabled && p.globals ==> forall i: nat :: i <= LAST ==> Wanted(w, p.vm, i) ==>
        TableWants(w.tables[p.table], i)
    case Exec(t, _, _, _) => LeavesNothing(w, t)
    case Exit(t) => LeavesNothing(w, t)
    case _ => true
  }

  ghost predicate LeavesNothing(w: World, t: TaskId)
    requires WellFormed(w) && t in w.tasks
  {
    var p := w.tasks[t];
    OthersHaveGlobals(w, t, p.vm) ==>
      forall i: nat :: i <= LAST ==> TableWants(w.tables[p.table], i) ==> OthersWant(w, t, p.vm, i)
  }

  lemma TableSlotIsWants(t: Table, i: nat)
    requires i <= LAST && forall fd <- t.fds :: fd >= 0
    ensures TableHasSlot(t, i) <==> TableWants(t, i)
  {
    if i < LAST && TableWants(t, i) {
      assert i in t.fds && Slot(i) == i;
    }
    if i == LAST && TableWants(t, i) {
      var fd: int :| fd >= LAST && fd in t.fds;
      assert Slot(fd) == LAST;
    }
  }

  lemma InitialArrayIsWanted(w: World, vm: VmId, i: nat)
    requires WellFormed(w) && i <= LAST
    ensures InitialArray(w, vm)[i] <==> Wanted(w, vm, i)
  {
    forall k | k in w.tables
      ensures TableHasSlot(w.tables[k], i) <==> TableWants(w.tables[k], i)
    {
      TableSlotIsWants(w.tables[k], i);
    }
  }

  lemma PreloadWants(w: World, op: Op, vm: VmId, i: nat)
    requires WellFormed(w) && Enabled(w, op) && op.PreloadInit?
    ensures Wanted(Apply(w, op), vm, i) <==> Wanted(w, vm, i)
  {
    var w' := Apply(w, op);
    assert forall t <- w.tasks ::
        t in w'.tasks && w'.tasks[t].vm == w.tasks[t].vm && w'.tasks[t].table == w.tasks[t].table;
  }

  /**
   * One slot of one cache across one operation: as safe as before, and as exact unless the operation loses
   * the slot.
   */
  lemma ApplySlot(w: World, op: Op, vm: VmId, i: nat)
    requires AllSafe(w) && Enabled(w, op) && i <= LAST
    requires vm in Apply(w, op).disabled && HasGlobals(Apply(w, op), vm)
    ensures WellFormed(Apply(w, op))
    ensures Wanted(Apply(w, op), vm, i) ==> Apply(w, op).disabled[vm][i]
    ensures AllExact(w) ==> ((Apply(w, op).disabled[vm][i] <==> Wanted(Apply(w, op), vm, i)) <==>
            !LosesSlot(w, op, vm, i))
  {
    ApplyWellFormed(w, op);
    match op
    case Set(k, fd, v) =>
      SetMonitorSlot(w, k, fd, v, vm, i);
    case Clone(parent, child, _, _) =>
      CloneSlot(w, op, vm, i);
    case Unshare(_, _) =>
      UnshareWants(w, op, vm, i);
      assert HasGlobals(w, vm) by { UnshareGlobals(w, op, vm); }
    case Exec(t, _, _, _) =>
      LeaveIsLeft(w, op);
      LeaveSlot(w, Apply(w, op), t, vm, i);
    case Exit(t) =>
      LeaveIsLeft(w, op);
      LeaveSlot(w, Apply(w, op), t, vm, i);
    case PreloadInit(t) =>
      PreloadSlot(w, op, vm, i);
  }

  lemma CloneGlobals(w: World, op: Op, vm: VmId)
    requires WellFormed(w) && Enabled(w, op) && op.Clone?
    ensures vm in w.disabled ==> (HasGlobals(Apply(w, op), vm) <==> HasGlobals(w, vm))
    ensures vm !in w.disabled && vm == op.vm ==> (HasGlobals(Apply(w, op), vm) <==> w.tasks[op.parent].globals)
  {
    var w' := Apply(w, op);
    assert op.child in w'.tasks && forall t <- w.tasks :: t in w'.tasks && w'.tasks[t] == w.tasks[t];
    if HasGlobals(w', vm) {
      var t :| t in w'.tasks && w'.tasks[t].vm == vm && w'.tasks[t].globals;
      assert w.tasks[if t == op.child then op.parent else t].globals;
    }
    if vm in w.disabled && HasGlobals(w, vm) {
      var t :| t in w.tasks && w.tasks[t].vm == vm && w.tasks[t].globals;
      assert t in w'.tasks && w'.tasks[t] == w.tasks[t];
    }
  }

  lemma CloneSlot(w: World, op: Op, vm: VmId, i: nat)
    requires AllSafe(w) && Enabled(w, op) && op.Clone? && i <= LAST
    requires vm in Apply(w, op).disabled && HasGlobals(Apply(w, op), vm) && WellFormed(Apply(w, op))
    ensures Wanted(Apply(w, op), vm, i) ==> Apply(w, op).disabled[vm][i]
    ensures AllExact(w) ==> ((Apply(w, op).disabled[vm][i] <==> Wanted(Apply(w, op), vm, i)) <==>
            !LosesSlot(w, op, vm, i))
  {
    CloneGlobals(w, op, vm);
    if vm in w.disabled {
      CloneWants(w, op, vm, i);
    } else {
      var p := w.tasks[op.parent];
      ForkWants(w, op, i);
      assert HasGlobals(w, p.vm);
      WantedSplits(w, op.parent, p.vm, i);
    }
  }

  lemma UnshareGlobals(w: World, op: Op, vm: VmId)
    requires WellFormed(w) && Enabled(w, op) && op.Unshare? && HasGlobals(Apply(w, op), vm)
    ensures HasGlobals(w, vm)
  {
    var t :| t in Apply(w, op).tasks && Apply(w, op).tasks[t].vm == vm && Apply(w, op).tasks[t].globals;
    assert w.tasks[t].vm == vm && w.tasks[t].globals;
  }

  lemma LeaveSlot(w: World, w': World, t: TaskId, vm: VmId, i: nat)
    requires AllSafe(w) && Left(w, w', t) && i <= LAST
    requires vm in w'.disabled && HasGlobals(w', vm) && WellFormed(w')
    ensures Wanted(w', vm, i) ==> w'.disabled[vm][i]
    ensures AllExact(w) ==>
              ((w'.disabled[vm][i] <==> Wanted(w', vm, i)) <==>
               !(vm == w.tasks[t].vm && TableWants(w.tables[w.tasks[t].table], i) && !OthersWant(w, t, vm, i)))
  {
    LeaveGlobals(w, w', t, vm);
    assert vm in w.disabled && HasGlobals(w, vm);
    LeaveWants(w, w', t, vm, i);
    WantedSplits(w, t, vm, i);
  }

  lemma PreloadGlobals(w: World, op: Op, vm: VmId)
    requires WellFormed(w) && Enabled(w, op) && op.PreloadInit? && vm != w.tasks[op.task].vm &&
             HasGlobals(Apply(w, op), vm)
    ensures HasGlobals(w, vm)
  {
    var w' := Apply(w, op);
    var t :| t in w'.tasks && w'.tasks[t].vm == vm && w'.tasks[t].globals;
    assert w.tasks[t].vm == vm && w.tasks[t].globals;
  }

  lemma PreloadSlot(w: World, op: Op, vm: VmId, i: nat)
    requires AllSafe(w) && Enabled(w, op) && op.PreloadInit? && i <= LAST
    requires vm in Apply(w, op).disabled && HasGlobals(Apply(w, op), vm) && WellFormed(Apply(w, op))
    ensures Wanted(Apply(w, op), vm, i) ==> Apply(w, op).disabled[vm][i]
    ensures AllExact(w) ==> (Apply(w, op).disabled[vm][i] <==> Wanted(Apply(w, op), vm, i))
  {
    PreloadWants(w, op, vm, i);
    if vm == w.tasks[op.task].vm {
      InitialArrayIsWanted(w, vm, i);
    } else {
      PreloadGlobals(w, op, vm);
    }
  }

  // ----- Whole runs

  function Run(w: World, ops: seq<Op>): Option<World>
    requires WellFormed(w)
    ensures Run(w, ops).Some? ==> WellFormed(Run(w, ops).value)
    decreases |ops|
  {
    if ops == [] then Some(w)
    else if !Enabled(w, ops[0]) then None
    else
      ApplyWellFormed(w, ops[0]);
      Run(Apply(w, ops[0]), ops[1..])
  }

  ghost predicate RunLosesNothing(w: World, ops: seq<Op>)
    requires WellFormed(w)
    decreases |ops|
  {
    ops == [] ||
    (Enabled(w, ops[0]) && LosesNothing(w, ops[0]) &&
     (ApplyWellFormed(w, ops[0]); RunLosesNothing(Apply(w, ops[0]), ops[1..])))
  }

  /** The caches are exact at the start of the run and after each of its operations. */
  ghost predicate ExactAlong(w: World, ops: seq<Op>)
    requires WellFormed(w)
    decreases |ops|
  {
    AllExact(w) &&
    (ops == [] || (Enabled(w, ops[0]) && (ApplyWellFormed(w, ops[0]); ExactAlong(Apply(w, ops[0]), ops[1..]))))
  }

  /**
   * Over every run no monitored fd bypasses the tracer, and the caches stay exact exactly as long as no
   * operation loses a monitor.
   */
  lemma {:induction false} CachesOverRuns(w: World, ops: seq<Op>)
    requires AllSafe(w) && Run(w, ops).Some?
    ensures AllSafe(Run(w, ops).value)
    ensures AllExact(w) ==> (ExactAlong(w, ops) <==> RunLosesNothing(w, ops))
    decreases |ops|
  {
    if ops != [] {
      ApplyKeepsCaches(w, ops[0]);
      CachesOverRuns(Apply(w, ops[0]), ops[1..]);
    }
  }

  /** An operation loses nothing exactly when it loses no slot of a cache that is in use afterwards. */
  lemma LosesNothingIff(w: World, op: Op)
    requires WellFormed(w) && Enabled(w, op)
    ensures LosesNothing(w, op) <==>
            forall vm, i: nat :: vm in Apply(w, op).disabled && HasGlobals(Apply(w, op), vm) && i <= LAST ==>
              !LosesSlot(w, op, vm, i)
  {
    match op
    case Clone(parent, _, vm, _) =>
      CloneGlobals(w, op, vm);
      assert vm in Apply(w, op).disabled;
      assert vm !in w.disabled ==> forall i: nat :: LosesSlot(w, op, vm, i) <==>
               Wanted(w, w.tasks[parent].vm, i) && !TableWants(w.tables[w.tasks[parent].table], i);
    case Exec(t, _, _, _) => LeaveLosesIff(w, op);
    case Exit(t) => LeaveLosesIff(w, op);
    case _ =>
  }

  lemma LeaveLosesIff(w: World, op: Op)
    requires WellFormed(w) && Enabled(w, op) && (op.Exit? || op.Exec?)
    ensures LosesNothing(w, op) <==>
            forall vm, i: nat :: vm in Apply(w, op).disabled && HasGlobals(Apply(w, op), vm) && i <= LAST ==>
              !LosesSlot(w, op, vm, i)
  {
    var p := w.tasks[op.task];
    LeaveIsLeft(w, op);
    LeaveGlobals(w, Apply(w, op), op.task, p.vm);
    assert p.vm in Apply(w, op).disabled;
    assert forall i: nat :: LosesSlot(w, op, p.vm, i) <==>
                            TableWants(w.tables[p.table], i) && !OthersWant(w, op.task, p.vm, i);
  }

  /** Every operation keeps all caches safe, and keeps exact caches exact if and only if it loses nothing. */
  lemma ApplyKeepsCaches(w: World, op: Op)
    requires AllSafe(w) && Enabled(w, op)
    ensures AllSafe(Apply(w, op))
    ensures AllExact(w) ==> (AllExact(Apply(w, op)) <==> LosesNothing(w, op))
  {
    var w' := Apply(w, op);
    ApplyWellFormed(w, op);
    LosesNothingIff(w, op);
    forall vm, i: nat | vm in w'.disabled && HasGlobals(w', vm) && i <= LAST
      ensures Wanted(w', vm, i) ==> w'.disabled[vm][i]
      ensures AllExact(w) ==> ((w'.disabled[vm][i] <==> Wanted(w', vm, i)) <==> !LosesSlot(w, op, vm, i))
    {
      ApplySlot(w, op, vm, i);
    }
  }

  // ----- When tasks part company

  /**
   * A forked cache, copied with the parent's memory, is exact just when the parent's own table wants all that its
   * address space does.
   */
  lemma ForkExactIff(w: World, op: Op)
    requires WellFormed(w) && Enabled(w, op) && op.Clone? && op.vm !in w.disabled
    requires Exact(w, w.tasks[op.parent].vm)
    ensures WellFormed(Apply(w, op))
    ensures Exact(Apply(w, op), op.vm) <==>
            forall i: nat :: i <= LAST && Wanted(w, w.tasks[op.parent].vm, i) ==>
              TableWants(w.tables[w.tasks[op.parent].table], i)
  {
    var w', p := Apply(w, op), w.tasks[op.parent];
    ApplyWellFormed(w, op);
    forall i: nat | i <= LAST
      ensures Wanted(w', op.vm, i) <==> TableWants(w.tables[p.table], i)
      ensures TableWants(w.tables[p.table], i) ==> Wanted(w, p.vm, i)
    {
      ForkWants(w, op, i);
    }
    if Exact(w', op.vm) {
      forall i: nat | i <= LAST && Wanted(w, p.vm, i) ensures TableWants(w.tables[p.table], i) {
        assert w'.disabled[op.vm][i] == w.disabled[p.vm][i];
      }
    }
  }

  /** A cache stays exact when a task leaves just when the others want all that it wanted. */
  lemma LeaveExactIff(w: World, op: Op)
    requires WellFormed(w) && Enabled(w, op) && (op.Exit? || op.Exec?)
    requires Exact(w, w.tasks[op.task].vm)
    ensures WellFormed(Apply(w, op))
    ensures
      var p := w.tasks[op.task];
      Exact(Apply(w, op), p.vm) <==>
      forall i: nat :: i <= LAST && TableWants(w.tables[p.table], i) ==> OthersWant(w, op.task, p.vm, i)
  {
    var w', p := Apply(w, op), w.tasks[op.task];
    ApplyWellFormed(w, op);
    LeaveIsLeft(w, op);
    forall i: nat | i <= LAST
      ensures Wanted(w', p.vm, i) <==> OthersWant(w, op.task, p.vm, i)
      ensures Wanted(w, p.vm, i) <==> OthersWant(w, op.task, p.vm, i) || TableWants(w.tables[p.table], i)
    {
      LeaveWants(w, w', op.task, p.vm, i);
    }
    if Exact(w', p.vm) {
      forall i: nat | i <= LAST && TableWants(w.tables[p.table], i) ensures OthersWant(w, op.task, p.vm, i) {
        assert w'.disabled[p.vm][i] == w.disabled[p.vm][i];
      }
    }
  }

  /** Two tables in one address space, of which only the first monitors fd 5. */
  const TWO_TABLES: World :=
    World(map[0 := Task(0, 0, true), 1 := Task(0, 1, true)], map[0 := Table(map[5 := 7], 0), 1 := Table(map[], 0)],
          map[0 := seq(SYSCALLBUF_FDS_DISABLED_SIZE, i => i == 5)])

  lemma TwoTablesExact()
    ensures AllExact(TWO_TABLES)
  {
    var w := TWO_TABLES;
    assert BeyondLimit(w.tables[0].fds) == {} && BeyondLimit(w.tables[1].fds) == {};
    assert WellFormed(w);
    forall i: nat | i <= LAST
      ensures w.disabled[0][i] <==> Wanted(w, 0, i)
    {
      assert TableWants(w.tables[0], i) <==> i == 5;
      assert !TableWants(w.tables[1], i);
      if i == 5 {
        assert 0 in w.tasks && w.tasks[0].vm == 0;
      }
    }
  }

  /** A fork of a task that monitors nothing inherits a cache that still disables fd 5. */
  lemma ForkCanLeaveStaleSlot()
    ensures
      var w := TWO_TABLES;
      var op := Clone(1, 2, 1, 2);
      && AllExact(w) && Enabled(w, op)
      && WellFormed(Apply(w, op)) && Apply(w, op).disabled[1][5] && !Wanted(Apply(w, op), 1, 5)
  {
    var w := TWO_TABLES;
    var op := Clone(1, 2, 1, 2);
    TwoTablesExact();
    ForkWants(w, op, 5);
    ApplyWellFormed(w, op);
  }

  /** The exit of the task that monitors fd 5 leaves a cache that still disables it. */
  lemma ExitCanLeaveStaleSlot()
    ensures
      var w := TWO_TABLES;
      && AllExact(w) && Enabled(w, Exit(0))
      && WellFormed(Apply(w, Exit(0))) && Apply(w, Exit(0)).disabled[0][5] && !Wanted(Apply(w, Exit(0)), 0, 5)
  {
    var w := TWO_TABLES;
    TwoTablesExact();
    LeaveIsLeft(w, Exit(0));
    LeaveWants(w, Apply(w, Exit(0)), 0, 0, 5);
    assert !TableWants(w.tables[1], 5);
    ApplyWellFormed(w, Exit(0));
  }

  // ----- The session, updated in place

  /** The array a task's address space should have, going by the globals of that task. */
  function TaskArray(w: World, t: TaskId, i: nat): seq<bool>
    requires t in w.tasks && w.tasks[t].vm in w.disabled && i < |w.disabled[w.tasks[t].vm]|
  {
    var vm := w.tasks[t].vm;
    if w.tasks[t].globals then w.disabled[vm][i := MonitoredInAnyTask(w, vm, i)] else w.disabled[vm]
  }

  ghost predicate TaskOk(w: World, k: TableId, i: nat, target: map<VmId, seq<bool>>, t: TaskId)
    requires t in w.tasks
  {
    var vm := w.tasks[t].vm;
    w.tasks[t].table == k ==>
      vm in w.disabled && i < |w.disabled[vm]| && vm in target && target[vm] == TaskArray(w, t, i)
  }

  /** What one pass needs to know: for every task of table `k`, `target` has the array it should write. */
  ghost predicate IsTarget(w: World, k: TableId, i: nat, target: map<VmId, seq<bool>>) {
    target.Keys == w.disabled.Keys && forall t <- w.tasks :: w.tasks[t].table in w.tables && TaskOk(w, k, i, target, t)
  }

  /** The tasks of an address space agree on the globals, so any one of them tells whether to write. */
  lemma RefreshIsTarget(w: World, k: TableId, fd: int)
    requires WellFormed(w) && fd >= 0
    ensures IsTarget(w, k, Slot(fd), Refresh(w, k, fd).disabled)
  {
    forall t | t in w.tasks
      ensures TaskOk(w, k, Slot(fd), Refresh(w, k, fd).disabled, t)
    {
      assert w.tasks[t].table == k && w.tasks[t].globals ==> UsesTable(w, w.tasks[t].vm, k);
    }
  }

  /** The arrays of the address spaces in `updated` are those of `target`, and the others those of `start`. */
  ghost predicate Refreshed(start: map<VmId, seq<bool>>, target: map<VmId, seq<bool>>, updated: set<VmId>,
                            disabled: map<VmId, seq<bool>>)
  {
    && disabled.Keys == start.Keys == target.Keys
    && forall vm <- disabled :: disabled[vm] == if vm in updated then target[vm] else start[vm]
  }

  lemma RefreshNext(start: map<VmId, seq<bool>>, target: map<VmId, seq<bool>>, updated: set<VmId>,
                    disabled: map<VmId, seq<bool>>, vm: VmId)
    requires Refreshed(start, target, updated, disabled) && vm in disabled
    ensures Refreshed(start, target, updated + {vm}, disabled[vm := target[vm]])
  {
  }

  /** Every task of the table outside `rest` has its address space in `updated`. */
  ghost predicate Covered(w: World, k: TableId, rest: set<TaskId>, updated: set<VmId>) {
    && (forall t <- rest :: t in w.tasks && w.tasks[t].table == k && w.tasks[t].vm in w.disabled)
    && forall t <- w.tasks :: w.tasks[t].table == k && t !in rest ==> w.tasks[t].vm in updated
  }

  lemma CoveredNext(w: World, k: TableId, rest: set<TaskId>, updated: set<VmId>, t: TaskId)
    requires Covered(w, k, rest, updated) && t in rest
    ensures Covered(w, k, rest - {t}, updated + {w.tasks[t].vm})
  {
  }

  /** Address spaces without a task of the table keep their arrays. */
  lemma RefreshAll(w: World, k: TableId, fd: int, updated: set<VmId>, disabled: map<VmId, seq<bool>>)
    requires fd >= 0 && Covered(w, k, {}, updated) &&
             Refreshed(w.disabled, Refresh(w, k, fd).disabled, updated, disabled)
    ensures disabled == Refresh(w, k, fd).disabled
  {
    forall vm | vm in disabled
      ensures disabled[vm] == RefreshedArray(w, k, Slot(fd), vm)
    {
      assert UsesTable(w, vm, k) ==> vm in updated;
    }
  }

  class Session {
    var tasks: map<TaskId, Task>
    var tables: map<TableId, Table>
    var disabled: map<VmId, seq<bool>>

    ghost function View(): World
      reads this
    {
      World(tasks, tables, disabled)
    }

    constructor (w: World)
      ensures View() == w
    {
      tasks, tables, disabled := w.tasks, w.tables, w.disabled;
    }

    method IsFdMonitoredInAnyTask(vm: VmId, fd: nat) returns (r: bool)
      requires forall t <- tasks :: tasks[t].table in tables
      ensures r <==> MonitoredInAnyTask(World(tasks, tables, map[]), vm, fd)
    {
      var rest := set t | t in tasks && tasks[t].vm == vm;
      while rest != {}
        invariant rest <= tasks.Keys
        invariant forall t <- tasks :: tasks[t].vm == vm && t !in rest ==> !TableMonitors(tables[tasks[t].table], fd)
        decreases rest
      {
        var t :| t in rest;
        var table := tables[tasks[t].table];
        if fd in table.fds || (fd >= LAST && table.fdCountBeyondLimit > 0) {
          return true;
        }
        rest := rest - {t};
      }
      return false;
    }

    /** Refreshes the slot in the array of a task's address space, if the array is there. */
    method UpdateArray(t: TaskId, slot: nat, ghost k: TableId, ghost w: World, ghost target: map<VmId, seq<bool>>)
      requires w.tasks == tasks && w.tables == tables && t in tasks && tasks[t].table == k &&
               IsTarget(w, k, slot, target)
      requires tasks[t].vm in disabled && disabled[tasks[t].vm] == w.disabled[tasks[t].vm]
      modifies `disabled
      ensures disabled == old(disabled)[tasks[t].vm := target[tasks[t].vm]]
    {
      assert TaskOk(w, k, slot, target, t);
      var vm := tasks[t].vm;
      if tasks[t].globals {
        var disable := IsFdMonitoredInAnyTask(vm, slot);
        disabled := disabled[vm := disabled[vm][slot := disable]];
      }
    }

    /** One pass over the tasks of the table, in any order, writing each address space once. */
    method UpdateArrays(k: TableId, slot: nat, ghost w: World, ghost target: map<VmId,
                        seq<bool>>) returns (ghost updated: set<VmId>)
      requires View() == w && IsTarget(w, k, slot, target)
      modifies `disabled
      ensures Covered(w, k, {}, updated) && Refreshed(w.disabled, target, updated, disabled)
    {
      var rest := set t | t in tasks && tasks[t].table == k;
      var seen: set<VmId> := {};
      assert forall t <- rest :: TaskOk(w, k, slot, target, t);
      while rest != {}
        invariant Covered(w, k, rest, seen) && Refreshed(w.disabled, target, seen, disabled)
        decreases rest
      {
        var t :| t in rest;
        CoveredNext(w, k, rest, seen, t);
        rest := rest - {t};
        var vm := tasks[t].vm;
        if vm !in seen {
          RefreshNext(w.disabled, target, seen, disabled, vm);
          seen := seen + {vm};
          UpdateArray(t, slot, k, w, target);
        } else {
          assert seen + {vm} == seen;
        }
      }
      updated := seen;
    }

    method UpdateSyscallbufFdsDisabled(k: TableId, fd: int)
      requires WellFormed(View()) && k in tables && fd >= 0
      modifies `disabled
      ensures View() == Refresh(old(View()), k, fd)
    {
      ghost var w := View();
      var slot := if fd >= SYSCALLBUF_FDS_DISABLED_SIZE then LAST else fd;
      RefreshIsTarget(w, k, fd);
      ghost var updated := UpdateArrays(k, slot, w, Refresh(w, k, fd).disabled);
      RefreshAll(w, k, fd, updated, disabled);
    }

    /** Puts a changed table in place and refreshes the caches. */
    method Store(k: TableId, fd: int, table: Table, ghost v: Option<Monitor>)
      requires WellFormed(View()) && k in tables && fd >= 0 && table == SetFd(tables[k], fd, v)
      modifies `tables, `disabled
      ensures View() == SetMonitor(old(View()), k, fd, v)
    {
      SetMonitorWellFormed(View(), k, fd, v);
      tables := tables[k := table];
      UpdateSyscallbufFdsDisabled(k, fd);
    }

    /** The source asserts that the fd has no monitor yet. */
    method AddMonitor(k: TableId, fd: int, monitor: Monitor)
      requires WellFormed(View()) && k in tables && fd >= 0 && fd !in tables[k].fds
      modifies `tables, `disabled
      ensures View() == Apply(old(View()), Set(k, fd, Some(monitor)))
    {
      var t := tables[k];
      var count := t.fdCountBeyondLimit;
      if fd >= SYSCALLBUF_FDS_DISABLED_SIZE && fd !in t.fds {
        count := count + 1;
      }
      Store(k, fd, Table(t.fds[fd := monitor], count), Some(monitor));
    }

    /** A duplicate of a monitored fd is monitored alike; a duplicate of another fd stops being monitored. */
    method DidDup(k: TableId, from: int, to: int)
      requires WellFormed(View()) && k in tables && to >= 0
      modifies `tables, `disabled
      ensures
        var fds := old(tables)[k].fds;
        View() == Apply(old(View()), Set(k, to, if from in fds then Some(fds[from]) else None))
    {
      var t := tables[k];
      var count := t.fdCountBeyondLimit;
      if from in t.fds {
        if to >= SYSCALLBUF_FDS_DISABLED_SIZE && to !in t.fds {
          count := count + 1;
        }
        Store(k, to, Table(t.fds[to := t.fds[from]], count), Some(t.fds[from]));
      } else {
        if to >= SYSCALLBUF_FDS_DISABLED_SIZE && to in t.fds {
          count := count - 1;
        }
        Store(k, to, Table(t.fds - {to}, count), None);
      }
    }

    method DidClose(k: TableId, fd: int)
      requires WellFormed(View()) && k in tables && fd >= 0
      modifies `tables, `disabled
      ensures View() == Apply(old(View()), Set(k, fd, None))
    {
      var t := tables[k];
      var count := t.fdCountBeyondLimit;
      if fd >= SYSCALLBUF_FDS_DISABLED_SIZE && fd in t.fds {
        count := count - 1;
      }
      Store(k, fd, Table(t.fds - {fd}, count), None);
    }

    /** Regenerates the slots of a task's address space from the fds of all its tasks. */
    method InitSyscallbufFdsDisabled(t: TaskId)
      requires WellFormed(View()) && t in tasks && tasks[t].globals
      modifies `disabled
      ensures View() == old(View()).(disabled := old(disabled)[tasks[t].vm := InitialArray(old(View()), tasks[t].vm)])
    {
      ghost var w := View();
      var vm := tasks[t].vm;
      var slots := seq(SYSCALLBUF_FDS_DISABLED_SIZE, _ => false);
      var rest := set u | u in tasks && tasks[u].vm == vm;
      while rest != {}
        invariant rest <= tasks.Keys && |slots| == SYSCALLBUF_FDS_DISABLED_SIZE && disabled == w.disabled
        invariant forall i :: 0 <= i <= LAST ==>
                    (slots[i] <==>
                     exists u <- tasks :: tasks[u].vm == vm && u !in rest && TableHasSlot(tables[tasks[u].table], i))
        decreases rest
      {
        var u :| u in rest;
        slots := AddSlots(slots, tables[tasks[u].table]);
        rest := rest - {u};
      }
      forall i | 0 <= i <= LAST
        ensures slots[i] == InitialArray(w, vm)[i]
      {
        assert InitialArray(w, vm)[i] == SomeFdOfSlot(w, vm, i);
      }
      assert slots == InitialArray(w, vm);
      disabled := disabled[vm := slots];
    }

    static method AddSlots(slots: seq<bool>, table: Table) returns (r: seq<bool>)
      requires |slots| == SYSCALLBUF_FDS_DISABLED_SIZE && forall fd <- table.fds :: fd >= 0
      ensures |r| == SYSCALLBUF_FDS_DISABLED_SIZE
      ensures forall i :: 0 <= i <= LAST ==> (r[i] <==> slots[i] || TableHasSlot(table, i))
    {
      r := slots;
      var pending := table.fds.Keys;
      ghost var done: set<int> := {};
      while pending != {}
        invariant pending + done == table.fds.Keys && |r| == SYSCALLBUF_FDS_DISABLED_SIZE
        invariant forall i :: 0 <= i <= LAST ==> (r[i] <==> slots[i] || SlotIn(done, i))
        decreases pending
      {
        assert (forall fd: int :: fd !in pending) ==> pending == {};
        var fd :| fd in pending;
        var adjusted := fd;
        if fd >= SYSCALLBUF_FDS_DISABLED_SIZE {
          adjusted := SYSCALLBUF_FDS_DISABLED_SIZE - 1;
        }
        r := r[adjusted := true];
        pending, done := pending - {fd}, done + {fd};
      }
    }
  }
}
