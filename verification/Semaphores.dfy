/** Runs of the kernel's threads: the scheduler, sleeping semaphores, task creation, exit and reaping
(`oslabs/kernel/src/kmt.c`), for any number of CPUs, tasks and semaphores.

A step is one section under `task_lock` or `sem->lock`.  Between `SemWait` and the trap of its
`yield` a task is in the `Window` of the source (`kmt.c:291` to `kmt.c:292`): it may be signalled or
preempted there.  `arrivals`, `woken`, `signals` and `done` are history.
 */
module Semaphores {
  import opened Common
  import opened Scheduler

  /** Where a thread stands in `sem_wait`: `Window` after unlocking and before its yield, `Slept` after
      the yield, until it returns. */
  datatype Pc = Ready | Window(sem: nat) | Slept(sem: nat) | Finished

  datatype Sem = Sem(
    init: nat,
    value: int,
    queue: seq<TaskId>,        // waiters, oldest first
    arrivals: seq<TaskId>,     // tasks that queued, in order
    woken: seq<TaskId>,        // tasks dequeued by signals, in order
    signals: nat,              // calls of sem_signal
    done: nat)                 // returned calls of sem_wait

  datatype Kernel = Kernel(sched: State, sems: seq<Sem>, pc: map<TaskId, Pc>)

  // ------------------------------------------------------------------ semaphore operations

  /** The locked section of `kmt_sem_wait` by task `t`. */
  function P(s: Sem, t: TaskId): Sem {
    if s.value - 1 < 0
    then s.(value := s.value - 1, queue := s.queue + [t], arrivals := s.arrivals + [t])
    else s.(value := s.value - 1, done := s.done + 1)
  }

  predicate Blocks(s: Sem) {
    s.value - 1 < 0
  }

  /** `kmt_sem_signal`: it wakes the oldest waiter, if there is one. */
  predicate Wakes(s: Sem) {
    s.value + 1 <= 0 && s.queue != []
  }

  function V(s: Sem): Sem {
    if Wakes(s)
    then s.(value := s.value + 1, queue := s.queue[1..], woken := s.woken + [s.queue[0]], signals := s.signals + 1)
    else s.(value := s.value + 1, signals := s.signals + 1)
  }

  // ------------------------------------------------------------------ steps

  function SetState(s: State, t: TaskId, st: RunState): State
    requires t in s.tasks
  {
    s.(tasks := s.tasks[t := s.tasks[t].(state := st)])
  }

  /** CPU `c` is executing task `t` (and not inside the scheduler). */
  predicate Executing(s: State, c: nat, t: TaskId) {
    && c < |s.current| && c < |s.stack|
    && s.current[c] == Some(t) && s.stack[c] == Some(t) && t in s.tasks
  }

  datatype Step =
    | Trap(cpu: nat, yielding: bool)
    | Switch(cpu: nat)
    | SemWait(cpu: nat, task: TaskId, sem: nat)
    | WaitReturn(cpu: nat, task: TaskId)
    | SemSignal(sem: nat)
    | SemInit(value: nat)
    | Create(n: nat, isUser: bool)
    | Finish(cpu: nat, task: TaskId)
    | UserBlock(cpu: nat, task: TaskId, exits: bool)
    | UserWake(task: TaskId)
    | Reap(task: TaskId)

  function AfterYield(pc: map<TaskId, Pc>, cur: Option<TaskId>, yielding: bool): map<TaskId, Pc> {
    if yielding && cur.Some? && cur.value in pc && pc[cur.value].Window?
    then pc[cur.value := Slept(pc[cur.value].sem)] else pc
  }

  ghost predicate Next(k: Kernel, step: Step, k': Kernel) {
    var s := k.sched;
    match step
    case Trap(c, yielding) =>
      && c < |s.current| == |s.prev| == |s.stack| && s.stack[c] == s.current[c]
      && k' == k.(sched := Schedule(s, c), pc := AfterYield(k.pc, s.current[c], yielding))
    case Switch(c) =>
      && c < |s.current| == |s.stack|
      && k' == k.(sched := s.(stack := s.stack[c := s.current[c]]))
    case SemWait(c, t, i) =>
      && Executing(s, c, t) && i < |k.sems| && t.Thread? && !s.tasks[t].isUser && t in k.pc && k.pc[t] == Ready
      && k' == k.(sems := k.sems[i := P(k.sems[i], t)],
                  sched := if Blocks(k.sems[i]) then SetState(s, t, Blocked) else s,
                  pc := if Blocks(k.sems[i]) then k.pc[t := Window(i)] else k.pc)
    case WaitReturn(c, t) =>
      && Executing(s, c, t) && t in k.pc && k.pc[t].Slept? && k.pc[t].sem < |k.sems|
      && var i := k.pc[t].sem;
         k' == k.(sems := k.sems[i := k.sems[i].(done := k.sems[i].done + 1)], pc := k.pc[t := Ready])
    case SemSignal(i) =>
      && i < |k.sems|
      && (Wakes(k.sems[i]) ==> k.sems[i].queue[0] in s.tasks)
      && k' == k.(sems := k.sems[i := V(k.sems[i])],
                  sched := if Wakes(k.sems[i]) then SetState(s, k.sems[i].queue[0], Runnable) else s)
    case SemInit(v) =>
      k' == k.(sems := k.sems + [Sem(v, v, [], [], [], 0, 0)])
    case Create(n, isUser) =>
      && Thread(n) !in s.tasks
      && k' == k.(sched := s.(tasks := s.tasks[Thread(n) := Task(Runnable, -1, false, isUser, false)],
                              list := [Thread(n)] + s.list),
                  pc := k.pc[Thread(n) := Ready])
    case Finish(c, t) =>
      && Executing(s, c, t) && t.Thread? && !s.tasks[t].isUser && t in k.pc && k.pc[t] == Ready
      && k' == k.(sched := SetState(s, t, Dead), pc := k.pc[t := Finished])
    case UserBlock(c, t, exits) =>
      && Executing(s, c, t) && t.Thread? && s.tasks[t].isUser
      && k' == k.(sched := s.(tasks := s.tasks[t := s.tasks[t].(state := Blocked, zombie := s.tasks[t].zombie || exits)]))
    case UserWake(t) =>
      && t in s.tasks && t.Thread? && s.tasks[t].isUser && s.tasks[t].state == Blocked && !s.tasks[t].zombie
      && k' == k.(sched := SetState(s, t, Runnable))
    case Reap(t) =>
      && t in s.tasks && t.Thread? && s.tasks[t].zombie && !s.tasks[t].onCpu && IndexOf(s.list, t) < |s.list|
      && var j := IndexOf(s.list, t);
         k' == k.(sched := s.(tasks := s.tasks - {t}, list := s.list[..j] + s.list[j + 1..]), pc := k.pc - {t})
  }

  // ------------------------------------------------------------------ invariant

  /** `t` has entered `sem_wait` on semaphore `i`, was queued, and has not returned. */
  predicate Pends(pc: map<TaskId, Pc>, i: nat, t: TaskId) {
    t in pc && (pc[t] == Window(i) || pc[t] == Slept(i))
  }

  ghost function Pending(pc: map<TaskId, Pc>, i: nat): set<TaskId> {
    set t | t in pc && Pends(pc, i, t)
  }

  ghost predicate QueueDistinct(q: seq<TaskId>) {
    forall a, b :: 0 <= a < b < |q| ==> q[a] != q[b]
  }

  /** The accounts of one semaphore. */
  ghost predicate SemOk(s: Sem, pc: map<TaskId, Pc>, i: nat) {
    && s.arrivals == s.woken + s.queue
    && (if s.value < 0 then |s.queue| == -s.value else s.queue == [])
    && s.value == s.init + s.signals - s.done - |Pending(pc, i)|
    && QueueDistinct(s.queue)
    && (forall t :: t in s.queue ==> Pends(pc, i, t))
    && (forall t :: Pends(pc, i, t) ==> t in s.arrivals)
  }

  /** A kernel thread is blocked iff it is queued on the semaphore it pends on. */
  ghost predicate TaskOk(k: Kernel, t: TaskId)
    requires t in k.sched.tasks
  {
    var task := k.sched.tasks[t];
    && (task.zombie ==> task.isUser && task.state == Blocked)
    && (t.Idle? ==> task.state == Runnable && !task.isUser)
    && (t.Thread? ==> t in k.pc)
    && (t.Thread? && task.isUser ==> k.pc[t] == Ready)
    && (t.Thread? && !task.isUser ==>
          && (task.state == Dead <==> k.pc[t] == Finished)
          && (task.state == Blocked <==>
                (k.pc[t].Window? || k.pc[t].Slept?) && k.pc[t].sem < |k.sems| && t in k.sems[k.pc[t].sem].queue))
  }

  /** Threads and semaphores agree; a thread that runs after its yield has been woken. */
  ghost predicate ThreadsOk(k: Kernel) {
    && (forall i: nat :: i < |k.sems| ==> SemOk(k.sems[i], k.pc, i))
    && (forall t :: t in k.sched.tasks ==> TaskOk(k, t))
    && (forall t :: t in k.pc ==> PcOk(k, t))
    && (forall c :: 0 <= c < |k.sched.current| ==> CurrentOk(k, k.sched.current[c]))
  }

  ghost predicate PcOk(k: Kernel, t: TaskId)
    requires t in k.pc
  {
    && t in k.sched.tasks && t.Thread?
    && (k.pc[t].Window? || k.pc[t].Slept? ==> k.pc[t].sem < |k.sems| && !k.sched.tasks[t].isUser)
  }

  ghost predicate CurrentOk(k: Kernel, cur: Option<TaskId>) {
    (cur.Some? && cur.value in k.pc && k.pc[cur.value].Slept? && cur.value in k.sched.tasks) ==>
      k.sched.tasks[cur.value].state == Runnable
  }

  ghost predicate Inv(k: Kernel, cpus: nat) {
    Scheduler.Inv(k.sched, cpus) && ThreadsOk(k)
  }

  // ------------------------------------------------------------------ the scheduler under these steps

  /** Changing run states only leaves the scheduler's invariant alone. */
  lemma StatesOnly(s: State, s': State, cpus: nat)
    requires Scheduler.Inv(s, cpus) && s' == s.(tasks := s'.tasks) && s'.tasks.Keys == s.tasks.Keys
    requires forall t :: t in s.tasks ==> s'.tasks[t].cpu == s.tasks[t].cpu && s'.tasks[t].onCpu == s.tasks[t].onCpu
    ensures Scheduler.Inv(s', cpus)
  {
    SamePlaces(s, s', cpus);
  }

  lemma ReapSched(s: State, t: TaskId, cpus: nat)
    requires Scheduler.Inv(s, cpus) && t in s.tasks && t.Thread? && !s.tasks[t].onCpu
    ensures IndexOf(s.list, t) < |s.list|
    ensures var j := IndexOf(s.list, t);
            Scheduler.Inv(s.(tasks := s.tasks - {t}, list := s.list[..j] + s.list[j + 1..]), cpus)
  {
    var j := IndexOf(s.list, t);
    var s' := s.(tasks := s.tasks - {t}, list := s.list[..j] + s.list[j + 1..]);
    ReapShape(s, t, cpus);
    SamePlaces(s, s', cpus);
  }

  lemma ReapShape(s: State, t: TaskId, cpus: nat)
    requires Shape(s, cpus) && t in s.tasks && t.Thread?
    ensures var j := IndexOf(s.list, t);
            j < |s.list| && Shape(s.(tasks := s.tasks - {t}, list := s.list[..j] + s.list[j + 1..]), cpus)
  {
    var j := IndexOf(s.list, t);
    var list := s.list[..j] + s.list[j + 1..];
    forall u ensures u in list <==> u in s.tasks - {t} && u.Thread? {
      ListWithout(s.list, t, u);
    }
    ListWithout(s.list, t, t);
  }

  lemma CreateSched(s: State, n: nat, isUser: bool, cpus: nat)
    requires Scheduler.Inv(s, cpus) && Thread(n) !in s.tasks
    ensures Scheduler.Inv(s.(tasks := s.tasks[Thread(n) := Task(Runnable, -1, false, isUser, false)],
                             list := [Thread(n)] + s.list), cpus)
  {
    assert Thread(n) !in s.list;
    SamePlaces(s, s.(tasks := s.tasks[Thread(n) := Task(Runnable, -1, false, isUser, false)],
                     list := [Thread(n)] + s.list), cpus);
  }

  lemma SwitchSched(s: State, c: nat, cpus: nat)
    requires Scheduler.Inv(s, cpus) && c < cpus
    ensures Scheduler.Inv(s.(stack := s.stack[c := s.current[c]]), cpus)
  {
    SamePlaces(s, s.(stack := s.stack[c := s.current[c]]), cpus);
  }

  // ------------------------------------------------------------------ accounts

  lemma SemOkSame(s: Sem, pc: map<TaskId, Pc>, pc': map<TaskId, Pc>, i: nat)
    requires SemOk(s, pc, i) && forall t :: Pends(pc, i, t) <==> Pends(pc', i, t)
    ensures SemOk(s, pc', i)
  {
    assert Pending(pc, i) == Pending(pc', i);
  }

  /** A task starts pending. */
  lemma PendMore(pc: map<TaskId, Pc>, i: nat, t: TaskId)
    requires !Pends(pc, i, t)
    ensures |Pending(pc[t := Window(i)], i)| == |Pending(pc, i)| + 1
  {
    assert Pending(pc[t := Window(i)], i) == Pending(pc, i) + {t};
  }

  /** A task stops pending. */
  lemma PendLess(pc: map<TaskId, Pc>, i: nat, t: TaskId)
    requires Pends(pc, i, t)
    ensures |Pending(pc[t := Ready], i)| == |Pending(pc, i)| - 1
  {
    assert Pending(pc, i) == Pending(pc[t := Ready], i) + {t};
  }

  lemma WaitBlocks(s: Sem, pc: map<TaskId, Pc>, i: nat, t: TaskId)
    requires SemOk(s, pc, i) && Blocks(s) && !Pends(pc, i, t)
    ensures SemOk(P(s, t), pc[t := Window(i)], i)
  {
    PendMore(pc, i, t);
    var s' := P(s, t);
    forall u | u in s'.queue ensures Pends(pc[t := Window(i)], i, u) {
      assert u != t ==> u in s.queue;
    }
  }

  lemma SignalKeeps(s: Sem, pc: map<TaskId, Pc>, i: nat)
    requires SemOk(s, pc, i)
    ensures SemOk(V(s), pc, i)
    ensures Wakes(s) <==> s.queue != []
    ensures Wakes(s) ==> s.queue[0] !in V(s).queue && forall t :: t != s.queue[0] ==> (t in V(s).queue <==> t in s.queue)
  {
    if Wakes(s) {
      assert s.queue == [s.queue[0]] + s.queue[1..];
      forall t | t in s.queue && t != s.queue[0] ensures t in s.queue[1..] {
      }
    }
  }

  lemma ReturnKeeps(s: Sem, pc: map<TaskId, Pc>, i: nat, t: TaskId)
    requires SemOk(s, pc, i) && Pends(pc, i, t) && t !in s.queue
    ensures SemOk(s.(done := s.done + 1), pc[t := Ready], i)
  {
    PendLess(pc, i, t);
  }

  lemma SemsSame(k: Kernel, k': Kernel)
    requires k'.sems == k.sems && forall i: nat :: i < |k.sems| ==> SemOk(k.sems[i], k.pc, i)
    requires forall i, t :: Pends(k.pc, i, t) <==> Pends(k'.pc, i, t)
    ensures forall i: nat :: i < |k'.sems| ==> SemOk(k'.sems[i], k'.pc, i)
  {
    forall i: nat | i < |k'.sems| ensures SemOk(k'.sems[i], k'.pc, i) {
      SemOkSame(k.sems[i], k.pc, k'.pc, i);
    }
  }

  // ------------------------------------------------------------------ every step keeps the thread part

  /** No two CPUs run the same task. */
  ghost predicate CurrentDistinct(s: State) {
    forall c, d :: 0 <= c < |s.current| && 0 <= d < |s.current| && s.current[c] == s.current[d] && s.current[c].Some? ==> c == d
  }

  lemma InvCurrentDistinct(s: State, cpus: nat)
    requires Scheduler.Inv(s, cpus)
    ensures CurrentDistinct(s)
  {
    forall c: nat, d: nat | c < |s.current| && d < |s.current| && s.current[c] == s.current[d] && s.current[c].Some? ensures c == d {
      assert At(s, Cur(c), s.current[c].value) && At(s, Cur(d), s.current[c].value);
    }
  }

  lemma TrapThreads(k: Kernel, k': Kernel, c: nat, yielding: bool)
    requires ThreadsOk(k) && CurrentDistinct(k.sched) && c < |k.sched.current| == |k'.sched.current|
    requires k'.sems == k.sems && SameStates(k.sched, k'.sched) && k'.pc == AfterYield(k.pc, k.sched.current[c], yielding)
    requires k'.sched.current[c].Some? && k'.sched.current[c].value in k.sched.tasks
    requires k'.sched.current[c].value == Idle(c) || k.sched.tasks[k'.sched.current[c].value].state == Runnable
    requires forall d :: 0 <= d < |k.sched.current| && d != c ==> k'.sched.current[d] == k.sched.current[d]
    ensures ThreadsOk(k')
  {
    SemsSame(k, k');
    forall t | t in k'.sched.tasks ensures TaskOk(k', t) {
      assert TaskOk(k, t);
    }
    forall t | t in k'.pc ensures PcOk(k', t) {
      assert PcOk(k, t);
    }
    forall d | 0 <= d < |k'.sched.current| ensures CurrentOk(k', k'.sched.current[d]) {
      if d == c {
        assert Idle(c) in k.pc ==> PcOk(k, Idle(c));
      } else {
        assert CurrentOk(k, k.sched.current[d]);
      }
    }
  }

  /** Steps that leave the semaphores, the pending tasks and every current task's state alone. */
  lemma OtherThreads(k: Kernel, k': Kernel)
    requires ThreadsOk(k) && k'.sems == k.sems && k'.sched.current == k.sched.current
    requires forall i, t :: Pends(k.pc, i, t) <==> Pends(k'.pc, i, t)
    requires forall t :: t in k'.pc && k'.pc[t].Slept? ==>
               t in k.pc && k.pc[t].Slept? && t in k.sched.tasks && t in k'.sched.tasks && k'.sched.tasks[t].state == k.sched.tasks[t].state
    requires forall t :: t in k'.sched.tasks ==> TaskOk(k', t)
    requires forall t :: t in k'.pc ==> PcOk(k', t)
    ensures ThreadsOk(k')
  {
    SemsSame(k, k');
    forall c | 0 <= c < |k'.sched.current| ensures CurrentOk(k', k'.sched.current[c]) {
      assert CurrentOk(k, k.sched.current[c]);
    }
  }

  lemma SemWaitThreads(k: Kernel, c: nat, t: TaskId, i: nat, k': Kernel)
    requires ThreadsOk(k) && Next(k, SemWait(c, t, i), k')
    ensures ThreadsOk(k')
  {
    assert TaskOk(k, t) && PcOk(k, t) && SemOk(k.sems[i], k.pc, i);
    if Blocks(k.sems[i]) {
      WaitBlocks(k.sems[i], k.pc, i, t);
    }
    forall j: nat | j < |k'.sems| ensures SemOk(k'.sems[j], k'.pc, j) {
      if j != i {
        SemOkSame(k.sems[j], k.pc, k'.pc, j);
      }
    }
    forall u | u in k'.sched.tasks ensures TaskOk(k', u) {
      assert TaskOk(k, u);
    }
    forall u | u in k'.pc ensures PcOk(k', u) {
      assert PcOk(k, u);
    }
    forall d | 0 <= d < |k'.sched.current| ensures CurrentOk(k', k'.sched.current[d]) {
      assert CurrentOk(k, k.sched.current[d]);
    }
  }

  lemma SignalThreads(k: Kernel, i: nat, k': Kernel)
    requires ThreadsOk(k) && Next(k, SemSignal(i), k')
    ensures ThreadsOk(k')
  {
    assert SemOk(k.sems[i], k.pc, i);
    SignalKeeps(k.sems[i], k.pc, i);
    forall j: nat | j < |k'.sems| ensures SemOk(k'.sems[j], k'.pc, j) {
      assert SemOk(k.sems[j], k.pc, j);
    }
    forall u | u in k'.sched.tasks ensures TaskOk(k', u) {
      assert TaskOk(k, u);
      assert Wakes(k.sems[i]) && u == k.sems[i].queue[0] ==> Pends(k.pc, i, u);
    }
    forall u | u in k'.pc ensures PcOk(k', u) {
      assert PcOk(k, u);
    }
    forall d | 0 <= d < |k'.sched.current| ensures CurrentOk(k', k'.sched.current[d]) {
      assert CurrentOk(k, k.sched.current[d]);
    }
  }

  lemma WaitReturnThreads(k: Kernel, c: nat, t: TaskId, k': Kernel)
    requires ThreadsOk(k) && Next(k, WaitReturn(c, t), k')
    ensures ThreadsOk(k')
  {
    var i := k.pc[t].sem;
    assert TaskOk(k, t) && PcOk(k, t) && SemOk(k.sems[i], k.pc, i) && CurrentOk(k, k.sched.current[c]);
    ReturnKeeps(k.sems[i], k.pc, i, t);
    forall j: nat | j < |k'.sems| ensures SemOk(k'.sems[j], k'.pc, j) {
      if j != i {
        SemOkSame(k.sems[j], k.pc, k'.pc, j);
      }
    }
    forall u | u in k'.sched.tasks ensures TaskOk(k', u) {
      assert TaskOk(k, u);
    }
    forall u | u in k'.pc ensures PcOk(k', u) {
      assert PcOk(k, u);
    }
    forall d | 0 <= d < |k'.sched.current| ensures CurrentOk(k', k'.sched.current[d]) {
      assert CurrentOk(k, k.sched.current[d]);
    }
  }

  lemma SemInitThreads(k: Kernel, v: nat, k': Kernel)
    requires ThreadsOk(k) && Next(k, SemInit(v), k')
    ensures ThreadsOk(k')
  {
    forall t | t in k.pc ensures !Pends(k.pc, |k.sems|, t) {
      assert PcOk(k, t);
    }
    assert Pending(k.pc, |k.sems|) == {};
    forall j: nat | j < |k'.sems| ensures SemOk(k'.sems[j], k'.pc, j) {
      if j < |k.sems| {
        assert SemOk(k.sems[j], k.pc, j);
      }
    }
    forall u | u in k'.sched.tasks ensures TaskOk(k', u) {
      assert TaskOk(k, u);
      assert u in k.pc ==> PcOk(k, u);
    }
    forall u | u in k'.pc ensures PcOk(k', u) {
      assert PcOk(k, u);
    }
    forall d | 0 <= d < |k'.sched.current| ensures CurrentOk(k', k'.sched.current[d]) {
      assert CurrentOk(k, k.sched.current[d]);
    }
  }

  lemma CreateThreads(k: Kernel, n: nat, isUser: bool, k': Kernel)
    requires ThreadsOk(k) && Next(k, Create(n, isUser), k')
    ensures ThreadsOk(k')
  {
    assert Thread(n) in k.pc ==> PcOk(k, Thread(n));
    forall u | u in k'.sched.tasks ensures TaskOk(k', u) {
      assert u in k.sched.tasks ==> TaskOk(k, u);
    }
    forall u | u in k'.pc ensures PcOk(k', u) {
      assert u in k.pc ==> PcOk(k, u);
    }
    OtherThreads(k, k');
  }

  lemma FinishThreads(k: Kernel, c: nat, t: TaskId, k': Kernel)
    requires ThreadsOk(k) && Next(k, Finish(c, t), k')
    ensures ThreadsOk(k')
  {
    assert TaskOk(k, t);
    forall u | u in k'.sched.tasks ensures TaskOk(k', u) {
      assert TaskOk(k, u);
    }
    forall u | u in k'.pc ensures PcOk(k', u) {
      assert PcOk(k, u);
    }
    OtherThreads(k, k');
  }

  lemma UserThreads(k: Kernel, t: TaskId, step: Step, k': Kernel)
    requires ThreadsOk(k) && Next(k, step, k')
    requires (step.UserBlock? || step.UserWake?) && step.task == t
    ensures ThreadsOk(k')
  {
    assert TaskOk(k, t);
    forall u | u in k'.sched.tasks ensures TaskOk(k', u) {
      assert TaskOk(k, u);
    }
    forall u | u in k'.pc ensures PcOk(k', u) {
      assert PcOk(k, u);
    }
    OtherThreads(k, k');
  }

  lemma ReapThreads(k: Kernel, t: TaskId, k': Kernel)
    requires ThreadsOk(k) && Next(k, Reap(t), k')
    ensures ThreadsOk(k')
  {
    assert TaskOk(k, t);
    forall u | u in k'.sched.tasks ensures TaskOk(k', u) {
      assert TaskOk(k, u);
    }
    forall u | u in k'.pc ensures PcOk(k', u) {
      assert PcOk(k, u);
    }
    OtherThreads(k, k');
  }

  lemma SwitchThreads(k: Kernel, c: nat, k': Kernel)
    requires ThreadsOk(k) && Next(k, Switch(c), k')
    ensures ThreadsOk(k')
  {
    forall u | u in k'.sched.tasks ensures TaskOk(k', u) {
      assert TaskOk(k, u);
    }
    forall u | u in k'.pc ensures PcOk(k', u) {
      assert PcOk(k, u);
    }
    OtherThreads(k, k');
  }

  // ------------------------------------------------------------------ every step keeps the invariant

  lemma SchedStep(k: Kernel, step: Step, k': Kernel, cpus: nat)
    requires Scheduler.Inv(k.sched, cpus) && Next(k, step, k')
    ensures Scheduler.Inv(k'.sched, cpus)
  {
    match step
    case Trap(c, yielding) => ScheduleInv(k.sched, c, cpus);
    case Switch(c) => SwitchSched(k.sched, c, cpus);
    case WaitReturn(c, t) =>
    case SemInit(v) =>
    case Create(n, isUser) => CreateSched(k.sched, n, isUser, cpus);
    case Reap(t) => ReapSched(k.sched, t, cpus);
    case SemWait(c, t, i) => StatesOnly(k.sched, k'.sched, cpus);
    case SemSignal(i) => StatesOnly(k.sched, k'.sched, cpus);
    case Finish(c, t) => StatesOnly(k.sched, k'.sched, cpus);
    case UserBlock(c, t, exits) => StatesOnly(k.sched, k'.sched, cpus);
    case UserWake(t) => StatesOnly(k.sched, k'.sched, cpus);
  }

  lemma TrapStep(k: Kernel, c: nat, yielding: bool, k': Kernel, cpus: nat)
    requires Scheduler.Inv(k.sched, cpus) && ThreadsOk(k) && Next(k, Trap(c, yielding), k')
    ensures ThreadsOk(k')
  {
    InvCurrentDistinct(k.sched, cpus);
    ScheduleKeeps(k.sched, c, cpus);
    TrapThreads(k, k', c, yielding);
  }

  lemma ThreadStep(k: Kernel, step: Step, k': Kernel, cpus: nat)
    requires Scheduler.Inv(k.sched, cpus) && ThreadsOk(k) && Next(k, step, k')
    ensures ThreadsOk(k')
  {
    match step
    case Trap(c, yielding) => TrapStep(k, c, yielding, k', cpus);
    case Switch(c) => SwitchThreads(k, c, k');
    case SemWait(c, t, i) => SemWaitThreads(k, c, t, i, k');
    case WaitReturn(c, t) => WaitReturnThreads(k, c, t, k');
    case SemSignal(i) => SignalThreads(k, i, k');
    case SemInit(v) => SemInitThreads(k, v, k');
    case Create(n, isUser) => CreateThreads(k, n, isUser, k');
    case Finish(c, t) => FinishThreads(k, c, t, k');
    case UserBlock(c, t, exits) => UserThreads(k, t, step, k');
    case UserWake(t) => UserThreads(k, t, step, k');
    case Reap(t) => ReapThreads(k, t, k');
  }

  lemma StepInv(k: Kernel, step: Step, k': Kernel, cpus: nat)
    requires Inv(k, cpus) && Next(k, step, k')
    ensures Inv(k', cpus)
  {
    SchedStep(k, step, k', cpus);
    ThreadStep(k, step, k', cpus);
  }

  // ------------------------------------------------------------------ runs

  /** After `kmt_init`: idle tasks only, nothing running, every CPU on its boot stack. */
  ghost predicate Init(k: Kernel, cpus: nat) {
    && |k.sched.current| == cpus && |k.sched.prev| == cpus && |k.sched.stack| == cpus
    && (forall c :: 0 <= c < cpus ==> k.sched.current[c] == None && k.sched.prev[c] == None && k.sched.stack[c] == None)
    && (forall t :: t in k.sched.tasks <==> t.Idle? && t.owner < cpus)
    && (forall t :: t in k.sched.tasks ==> k.sched.tasks[t] == Task(Runnable, -1, false, false, false))
    && k.sched.list == [] && k.sems == [] && k.pc == map[]
  }

  lemma InitInv(k: Kernel, cpus: nat)
    requires Init(k, cpus)
    ensures Inv(k, cpus)
  {
    assert forall p, t :: !At(k.sched, p, t);
    assert forall t :: t in k.sched.tasks ==> TaskOk(k, t);
  }

  ghost predicate IsRun(states: seq<Kernel>, steps: seq<Step>, cpus: nat) {
    && |states| == |steps| + 1
    && Init(states[0], cpus)
    && forall i :: 0 <= i < |steps| ==> Next(states[i], steps[i], states[i + 1])
  }

  /** The invariant holds in every state of every run. */
  lemma {:induction false} RunInv(states: seq<Kernel>, steps: seq<Step>, cpus: nat, i: nat)
    requires IsRun(states, steps, cpus) && i < |states|
    ensures Inv(states[i], cpus)
  {
    if i == 0 {
      InitInv(states[0], cpus);
    } else {
      RunInv(states, steps, cpus, i - 1);
      StepInv(states[i - 1], steps[i - 1], states[i], cpus);
    }
  }

  // ------------------------------------------------------------------ consequences

  /** No two CPUs ever execute on the same kernel stack. */
  lemma StacksDisjoint(k: Kernel, cpus: nat, c: nat, d: nat, t: TaskId)
    requires Inv(k, cpus) && c < cpus && d < cpus
    requires k.sched.stack[c] == Some(t) && k.sched.stack[d] == Some(t)
    ensures c == d
  {
    StackPlace(k.sched, cpus, c, t);
    StackPlace(k.sched, cpus, d, t);
  }

  lemma StackPlace(s: State, cpus: nat, c: nat, t: TaskId)
    requires Scheduler.Inv(s, cpus) && c < cpus && s.stack[c] == Some(t)
    ensures At(s, Cur(c), t) || At(s, Prev(c), t)
    ensures t in s.tasks && s.tasks[t].onCpu
  {
  }

  /** A task reaped while `on_cpu` is clear is on no CPU: not current, not awaiting release, and no CPU
      is on its stack. */
  lemma ReapedIsOffCpu(k: Kernel, cpus: nat, t: TaskId, k': Kernel)
    requires Inv(k, cpus) && Next(k, Reap(t), k')
    ensures !Pinned(k.sched, t)
    ensures forall c :: 0 <= c < cpus ==> k.sched.stack[c] != Some(t)
  {
    forall c: nat | c < cpus ensures k.sched.stack[c] != Some(t) {
      if k.sched.stack[c] == Some(t) {
        StackPlace(k.sched, cpus, c, t);
      }
    }
  }

  /** A CPU that runs no thread takes the one created last. */
  lemma NewestFirst(k: Kernel, cpus: nat, n: nat, isUser: bool, k': Kernel, c: nat)
    requires Inv(k, cpus) && Next(k, Create(n, isUser), k') && c < cpus
    requires k.sched.current[c].Some? ==> k.sched.current[c].value.Idle?
    ensures IsTurnOf(k'.sched, c, Thread(n))
  {
    var s' := k'.sched;
    forall d: nat | d < cpus ensures s'.current[d] != Some(Thread(n)) && s'.prev[d] != Some(Thread(n)) {
      assert s'.current[d] == Some(Thread(n)) ==> At(k.sched, Cur(d), Thread(n));
      assert s'.prev[d] == Some(Thread(n)) ==> At(k.sched, Prev(d), Thread(n));
    }
    assert EligibleAt(s', c, 0, 0);
    assert TurnAt(s', c, 0, 0, Thread(n));
  }

  /** Completed waits never exceed the initial value plus the signals. */
  lemma WaitsBounded(k: Kernel, cpus: nat, i: nat)
    requires Inv(k, cpus) && i < |k.sems|
    ensures k.sems[i].done <= k.sems[i].init + k.sems[i].signals
  {
    var s := k.sems[i];
    assert SemOk(s, k.pc, i);
    QueueWithin(s.queue, Pending(k.pc, i));
  }

  /** A sequence without repetitions is no longer than a set holding its elements. */
  lemma {:induction false} QueueWithin(q: seq<TaskId>, ts: set<TaskId>)
    requires QueueDistinct(q) && forall t :: t in q ==> t in ts
    ensures |q| <= |ts|
  {
    if q != [] {
      var t := q[0];
      forall u | u in q[1..] ensures u in ts - {t} {
        var i :| 0 <= i < |q[1..]| && q[1..][i] == u;
        assert q[i + 1] == u && q[0] != q[i + 1];
      }
      QueueWithin(q[1..], ts - {t});
    }
  }

  /** Waiters wake in the order in which they arrived. */
  lemma WakesInOrder(k: Kernel, cpus: nat, i: nat)
    requires Inv(k, cpus) && i < |k.sems|
    ensures k.sems[i].woken == k.sems[i].arrivals[..|k.sems[i].woken|]
    ensures k.sems[i].queue == k.sems[i].arrivals[|k.sems[i].woken|..]
  {
    assert SemOk(k.sems[i], k.pc, i);
  }

  /** No wakeup is lost: a kernel thread is blocked iff it is queued, whatever happened between the
      unlock and the yield of its wait; and no run passes its yield before it was woken. */
  lemma BlockedIffQueued(k: Kernel, cpus: nat, t: TaskId)
    requires Inv(k, cpus) && t in k.sched.tasks && t.Thread? && !k.sched.tasks[t].isUser
    ensures k.sched.tasks[t].state == Blocked <==> exists i :: 0 <= i < |k.sems| && t in k.sems[i].queue
  {
    assert TaskOk(k, t);
    if i: nat :| i < |k.sems| && t in k.sems[i].queue {
      assert SemOk(k.sems[i], k.pc, i);
      assert Pends(k.pc, i, t);
    }
  }

  /** A wait returns only to a task that every one of its arrivals at the semaphore has been woken for, the one
      of this wait included, and that stands in no queue. */
  lemma ReturnMeansWoken(k: Kernel, cpus: nat, c: nat, t: TaskId, k': Kernel)
    requires Inv(k, cpus) && Next(k, WaitReturn(c, t), k')
    ensures k.sched.tasks[t].state == Runnable
    ensures var s := k.sems[k.pc[t].sem]; multiset(s.woken)[t] == multiset(s.arrivals)[t] >= 1
    ensures forall j :: 0 <= j < |k.sems| ==> t !in k.sems[j].queue
  {
    var i := k.pc[t].sem;
    assert TaskOk(k, t) && SemOk(k.sems[i], k.pc, i) && CurrentOk(k, k.sched.current[c]);
    assert Pends(k.pc, i, t);
    AllWoken(k.sems[i], t);
    forall j: nat | j < |k.sems| ensures t !in k.sems[j].queue {
      assert SemOk(k.sems[j], k.pc, j);
      assert t in k.sems[j].queue ==> Pends(k.pc, j, t);
    }
  }

  /** A preemption leaves a waiting task where it is in its wait; its own yield ends the first half of it. */
  lemma YieldEndsWindow(k: Kernel, c: nat, yielding: bool, k': Kernel, t: TaskId)
    requires Next(k, Trap(c, yielding), k') && t in k.pc
    ensures t in k'.pc
    ensures k'.pc[t] == if yielding && k.sched.current[c] == Some(t) && k.pc[t].Window? then Slept(k.pc[t].sem) else k.pc[t]
  {
  }

  /** A waiting task that runs again after its yield can return, and is then out of its wait. */
  lemma WokenCanReturn(k: Kernel, cpus: nat, c: nat, t: TaskId) returns (k': Kernel)
    requires Inv(k, cpus) && Executing(k.sched, c, t) && t in k.pc && k.pc[t].Slept?
    ensures Next(k, WaitReturn(c, t), k') && k'.pc == k.pc[t := Ready] && Inv(k', cpus)
  {
    assert PcOk(k, t);
    var i := k.pc[t].sem;
    k' := k.(sems := k.sems[i := k.sems[i].(done := k.sems[i].done + 1)], pc := k.pc[t := Ready]);
    StepInv(k, WaitReturn(c, t), k', cpus);
  }

  lemma AllWoken(s: Sem, t: TaskId)
    requires s.arrivals == s.woken + s.queue && t in s.arrivals && t !in s.queue
    ensures multiset(s.woken)[t] == multiset(s.arrivals)[t] >= 1
  {
    assert multiset(s.arrivals) == multiset(s.woken) + multiset(s.queue);
    assert t in multiset(s.arrivals) && t !in multiset(s.queue);
  }

  /** The value of a semaphore counts its waiters when negative. */
  lemma ValueCountsWaiters(k: Kernel, cpus: nat, i: nat)
    requires Inv(k, cpus) && i < |k.sems|
    ensures k.sems[i].value < 0 ==> |k.sems[i].queue| == -k.sems[i].value
    ensures k.sems[i].value >= 0 ==> k.sems[i].queue == []
  {
    assert SemOk(k.sems[i], k.pc, i);
  }

  /** A zombie stays one, blocked, until it is reaped. */
  lemma ZombieStays(k: Kernel, step: Step, k': Kernel, t: TaskId)
    requires t in k.sched.tasks && TaskOk(k, t) && Next(k, step, k') && k.sched.tasks[t].zombie
    requires step.Trap? ==> SameStates(k.sched, k'.sched)
    requires step.SemSignal? ==> k.sems[step.sem].queue != [] ==> k.sems[step.sem].queue[0] != t
    ensures t in k'.sched.tasks ==> k'.sched.tasks[t].zombie && k'.sched.tasks[t].state == Blocked
  {
  }

  /** A zombie is never woken or scheduled again. */
  lemma ZombieNeverRuns(k: Kernel, cpus: nat, step: Step, k': Kernel, t: TaskId, c: nat)
    requires Inv(k, cpus) && Next(k, step, k') && t in k.sched.tasks && k.sched.tasks[t].zombie
    requires c < cpus && k.sched.current[c] != Some(t)
    ensures |k'.sched.current| == cpus && k'.sched.current[c] != Some(t)
    ensures t in k'.sched.tasks ==> k'.sched.tasks[t].zombie && k'.sched.tasks[t].state == Blocked
  {
    assert TaskOk(k, t);
    if step.Trap? {
      ScheduleKeeps(k.sched, step.cpu, cpus);
    } else if step.SemSignal? && k.sems[step.sem].queue != [] {
      assert SemOk(k.sems[step.sem], k.pc, step.sem);
      assert Pends(k.pc, step.sem, k.sems[step.sem].queue[0]);
    }
    ZombieStays(k, step, k', t);
  }
}
