/** The SMP scheduler of `oslabs/kernel/src/kmt.c` as a state machine.

A step is one section under `task_lock`, for any number of CPUs and tasks.  `stack` is history: the
kernel stack a CPU is physically executing on (`None` is its boot stack).  `Schedule` runs on the
stack of the interrupted task; only the later `Switch` moves the CPU to the stack of the next one.
 */
module Scheduler {
  import opened Common

  /** Idle tasks are per CPU and never in the task list. */
  datatype TaskId = Idle(owner: nat) | Thread(n: nat)

  datatype RunState = Runnable | Blocked | Dead

  datatype Task = Task(state: RunState, cpu: int, onCpu: bool, isUser: bool, zombie: bool)

  datatype State = State(
    tasks: map<TaskId, Task>,
    list: seq<TaskId>,                  // task_list, from its head
    current: seq<Option<TaskId>>,
    prev: seq<Option<TaskId>>,
    stack: seq<Option<TaskId>>)

  const STEP_LIMIT: nat := 200001

  // ------------------------------------------------------------------ picking the next task

  predicate Schedulable(tasks: map<TaskId, Task>, t: TaskId) {
    t in tasks && tasks[t].state == Runnable && tasks[t].cpu == -1 && !tasks[t].onCpu
  }

  /** The first schedulable task of a sequence. */
  function FirstSchedulable(tasks: map<TaskId, Task>, ts: seq<TaskId>): Option<TaskId> {
    if ts == [] then None
    else if Schedulable(tasks, ts[0]) then Some(ts[0])
    else FirstSchedulable(tasks, ts[1..])
  }

  /** The position of `t`, or the length if absent. */
  function IndexOf(ts: seq<TaskId>, t: TaskId): (i: nat)
    ensures i <= |ts|
    ensures i < |ts| ==> ts[i] == t
    ensures i == |ts| <==> t !in ts
  {
    if ts == [] then 0 else if ts[0] == t then 0 else 1 + IndexOf(ts[1..], t)
  }

  /** The list in cyclic order from the successor of `after`, or from the head. */
  function CyclicOrder(ts: seq<TaskId>, after: Option<TaskId>): (r: seq<TaskId>)
    ensures |r| == |ts|
  {
    if after.None? || after.value !in ts then ts
    else var i := IndexOf(ts, after.value) + 1; ts[i..] + ts[..i]
  }

  function Prefix(ts: seq<TaskId>, k: nat): seq<TaskId> {
    if |ts| <= k then ts else ts[..k]
  }

  function PickNext(s: State, after: Option<TaskId>): Option<TaskId> {
    FirstSchedulable(s.tasks, Prefix(CyclicOrder(s.list, after), STEP_LIMIT))
  }

  /** `pick_next` finds the first schedulable task in cyclic order, and nothing only if there is none
      (among the first 200001). */
  lemma {:induction false} FirstSchedulableIsFirst(tasks: map<TaskId, Task>, ts: seq<TaskId>)
    ensures FirstSchedulable(tasks, ts).None? <==> forall i :: 0 <= i < |ts| ==> !Schedulable(tasks, ts[i])
    ensures FirstSchedulable(tasks, ts).Some? ==>
              exists k :: 0 <= k < |ts| && ts[k] == FirstSchedulable(tasks, ts).value && Schedulable(tasks, ts[k])
                          && forall i :: 0 <= i < k ==> !Schedulable(tasks, ts[i])
  {
    if ts == [] || Schedulable(tasks, ts[0]) {
    } else {
      FirstSchedulableIsFirst(tasks, ts[1..]);
      assert forall i :: 1 <= i < |ts| ==> ts[i] == ts[1..][i - 1];
      if FirstSchedulable(tasks, ts[1..]).Some? {
        var k :| 0 <= k < |ts[1..]| && ts[1..][k] == FirstSchedulable(tasks, ts[1..]).value
                 && Schedulable(tasks, ts[1..][k]) && forall i :: 0 <= i < k ==> !Schedulable(tasks, ts[1..][i]);
        assert ts[k + 1] == FirstSchedulable(tasks, ts).value;
      }
    }
  }

  lemma {:induction false} PickSchedulable(s: State, after: Option<TaskId>)
    ensures PickNext(s, after).Some? ==> Schedulable(s.tasks, PickNext(s, after).value) && PickNext(s, after).value in s.list
  {
    var ts := Prefix(CyclicOrder(s.list, after), STEP_LIMIT);
    FirstSchedulableIsFirst(s.tasks, ts);
    if PickNext(s, after).Some? {
      var k :| 0 <= k < |ts| && ts[k] == PickNext(s, after).value;
      assert ts[k] in CyclicOrder(s.list, after);
    }
  }

  // ------------------------------------------------------------------ steps

  /** Deferred release: the task switched away from last time is off this CPU's stack now. */
  function ReleasePrev(s: State, c: nat): State
    requires c < |s.prev| && c < |s.current|
  {
    match s.prev[c]
    case Some(p) =>
      if s.prev[c] != s.current[c] && p in s.tasks
      then s.(tasks := s.tasks[p := s.tasks[p].(onCpu := false)], prev := s.prev[c := None])
      else s
    case None => s
  }

  /** The running task gives up the CPU, keeping its stack. */
  function Preempted(c: nat, id: TaskId, t: Task): Task {
    t.(cpu := -1, state := if id != Idle(c) && t.state != Blocked && t.state != Dead then Runnable else t.state)
  }

  function SaveCurrent(s: State, c: nat): State
    requires c < |s.current|
  {
    match s.current[c]
    case Some(t) => if t in s.tasks then s.(tasks := s.tasks[t := Preempted(c, t, s.tasks[t])]) else s
    case None => s
  }

  /** The task that runs next on CPU `c`, after the running one has been saved. */
  function NextTask(s: State, c: nat): TaskId
    requires c < |s.current|
  {
    var after := if s.current[c] == Some(Idle(c)) then None else s.current[c];
    match PickNext(s, after) case Some(t) => t case None => Idle(c)
  }

  /** Make `next` the running task of CPU `c`; the release of the old one is deferred. */
  function Install(s: State, c: nat, next: TaskId): State
    requires c < |s.current| == |s.prev| && next in s.tasks
  {
    s.(tasks := s.tasks[next := s.tasks[next].(cpu := c, onCpu := true)],
       current := s.current[c := Some(next)],
       prev := s.prev[c := if s.current[c] != Some(next) then s.current[c] else None])
  }

  /** `kmt_schedule` on CPU `c`. */
  function Schedule(s: State, c: nat): State
    requires c < |s.current| == |s.prev|
  {
    var s1 := SaveCurrent(ReleasePrev(s, c), c);
    if NextTask(s1, c) in s1.tasks then Install(s1, c, NextTask(s1, c)) else s1
  }

  // ------------------------------------------------------------------ invariant

  /** The places that pin a task: a CPU's current task, and the one whose release is deferred. */
  datatype Place = Cur(cpu: nat) | Prev(cpu: nat)

  predicate At(s: State, p: Place, t: TaskId) {
    match p
    case Cur(c) => c < |s.current| && s.current[c] == Some(t)
    case Prev(c) => c < |s.prev| && s.prev[c] == Some(t)
  }

  ghost predicate Pinned(s: State, t: TaskId) {
    exists p :: At(s, p, t)
  }

  ghost predicate Shape(s: State, cpus: nat) {
    && |s.current| == cpus && |s.prev| == cpus && |s.stack| == cpus
    && (forall c: nat :: c < cpus ==> Idle(c) in s.tasks)
    && (forall t :: t in s.list <==> t in s.tasks && t.Thread?)
    && (forall i, j :: 0 <= i < j < |s.list| ==> s.list[i] != s.list[j])
  }

  /** `on_cpu` is set exactly for the pinned tasks. */
  ghost predicate OnCpuOk(s: State) {
    && (forall p, t :: At(s, p, t) ==> t in s.tasks && s.tasks[t].onCpu)
    && (forall t :: t in s.tasks && s.tasks[t].onCpu ==> Pinned(s, t))
  }

  /** No task is pinned at two places, and an idle task only on its own CPU. */
  ghost predicate PlacesOk(s: State) {
    && (forall p, p', t :: At(s, p, t) && At(s, p', t) ==> p == p')
    && (forall p, t :: At(s, p, t) && t.Idle? ==> p.cpu == t.owner)
  }

  /** The `cpu` field names the CPU that runs the task. */
  ghost predicate CpuOk(s: State) {
    && (forall c: nat, t :: At(s, Cur(c), t) ==> t in s.tasks && s.tasks[t].cpu == c)
    && (forall t :: t in s.tasks && s.tasks[t].cpu != -1 ==> 0 <= s.tasks[t].cpu && At(s, Cur(s.tasks[t].cpu), t))
  }

  /** A CPU executes on the stack of its current or its previous task. */
  ghost predicate StackOk(s: State, cpus: nat)
    requires |s.current| == |s.prev| == |s.stack| == cpus
  {
    forall c :: 0 <= c < cpus ==> s.stack[c] == s.current[c] || s.stack[c] == s.prev[c]
  }

  ghost predicate Inv(s: State, cpus: nat) {
    Shape(s, cpus) && OnCpuOk(s) && PlacesOk(s) && CpuOk(s) && StackOk(s, cpus)
  }

  lemma ReleaseInv(s: State, c: nat, cpus: nat)
    requires Inv(s, cpus) && c < cpus && s.stack[c] == s.current[c]
    ensures Inv(ReleasePrev(s, c), cpus) && ReleasePrev(s, c).prev[c] == None
    ensures ReleasePrev(s, c).current == s.current && ReleasePrev(s, c).stack == s.stack && ReleasePrev(s, c).list == s.list
  {
    var s1 := ReleasePrev(s, c);
    if s.prev[c].Some? {
      var p := s.prev[c].value;
      assert At(s, Prev(c), p);
      assert s.prev[c] != s.current[c] by {
        assert !At(s, Cur(c), p);
      }
      assert forall q, t :: At(s1, q, t) <==> At(s, q, t) && q != Prev(c);
      forall t | t in s1.tasks && s1.tasks[t].onCpu ensures Pinned(s1, t) {
        assert Pinned(s, t);
        var q :| At(s, q, t);
        assert At(s1, q, t);
      }
    }
  }

  lemma SavedTasks(s: State, c: nat, cpus: nat)
    requires Inv(s, cpus) && c < cpus && s.prev[c] == None
    ensures var s1 := SaveCurrent(s, c);
            && s1 == s.(tasks := s1.tasks)
            && s1.tasks.Keys == s.tasks.Keys
            && (forall t :: t in s.tasks && !At(s, Cur(c), t) ==> s1.tasks[t] == s.tasks[t])
            && (forall t :: t in s.tasks ==> s1.tasks[t].onCpu == s.tasks[t].onCpu)
            && (forall t :: t in s.tasks ==> s1.tasks[t].cpu == if At(s, Cur(c), t) then -1 else s.tasks[t].cpu)
  {
    if s.current[c].Some? {
      assert At(s, Cur(c), s.current[c].value);
    }
  }

  /** The next task is pinned nowhere, unless it is the idle task running already. */
  lemma NextIsFree(s: State, c: nat, cpus: nat)
    requires Inv(s, cpus) && c < cpus && s.prev[c] == None
    ensures var next := NextTask(SaveCurrent(s, c), c);
            && next in s.tasks
            && (s.current[c] == Some(next) || !Pinned(s, next))
            && (next.Idle? ==> next == Idle(c))
            && (s.current[c] == Some(next) ==> next == Idle(c))
  {
    var s1 := SaveCurrent(s, c);
    SavedTasks(s, c, cpus);
    var after := if s1.current[c] == Some(Idle(c)) then None else s1.current[c];
    PickSchedulable(s1, after);
    var next := NextTask(s1, c);
    if next != Idle(c) {
      assert !s.tasks[next].onCpu;
      forall p ensures !At(s, p, next) {
      }
    }
    if next == Idle(c) && s.current[c] != Some(next) {
      forall p ensures !At(s, p, next) {
      }
    }
    if s.current[c].Some? {
      assert At(s, Cur(c), s.current[c].value);
    }
  }

  /** How the places change when `next` is installed on CPU `c`. */
  ghost predicate Moved(s: State, s': State, c: nat, next: TaskId) {
    forall p, t :: At(s', p, t) <==>
      if p == Cur(c) then t == next
      else if p == Prev(c) then At(s, Cur(c), t) && t != next
      else At(s, p, t)
  }

  lemma MovedByInstall(s: State, s1: State, c: nat, next: TaskId)
    requires c < |s.current| == |s.prev| && s.prev[c] == None && s1 == s.(tasks := s1.tasks) && next in s1.tasks
    ensures Moved(s, Install(s1, c, next), c, next)
  {
  }

  lemma MovedPlaces(s: State, s': State, c: nat, next: TaskId)
    requires PlacesOk(s) && Moved(s, s', c, next)
    requires next.Idle? ==> next == Idle(c)
    requires At(s, Cur(c), next) || !Pinned(s, next)
    ensures PlacesOk(s')
  {
    assert forall p :: At(s, p, next) ==> p == Cur(c) && Pinned(s, next);
  }

  lemma MovedOnCpu(s: State, s1: State, s': State, c: nat, next: TaskId)
    requires OnCpuOk(s) && Moved(s, s', c, next) && !At(s, Prev(c), next)
    requires s.prev == s1.prev && c < |s.prev| && s.prev[c] == None
    requires s1.tasks.Keys == s.tasks.Keys && forall t :: t in s.tasks ==> s1.tasks[t].onCpu == s.tasks[t].onCpu
    requires next in s1.tasks && s'.tasks == s1.tasks[next := s1.tasks[next].(cpu := c, onCpu := true)]
    ensures OnCpuOk(s')
  {
    forall t | t in s'.tasks && s'.tasks[t].onCpu ensures Pinned(s', t) {
      if t == next {
        assert At(s', Cur(c), t);
      } else {
        assert Pinned(s, t);
        var p :| At(s, p, t);
        assert At(s', if p == Cur(c) then Prev(c) else p, t);
      }
    }
  }

  lemma MovedCpu(s: State, s1: State, s': State, c: nat, next: TaskId)
    requires CpuOk(s) && PlacesOk(s) && Moved(s, s', c, next)
    requires At(s, Cur(c), next) || !Pinned(s, next)
    requires s1.tasks.Keys == s.tasks.Keys
    requires forall t :: t in s.tasks ==> s1.tasks[t].cpu == if At(s, Cur(c), t) then -1 else s.tasks[t].cpu
    requires next in s1.tasks && s'.tasks == s1.tasks[next := s1.tasks[next].(cpu := c, onCpu := true)]
    ensures CpuOk(s')
  {
    forall k: nat, t | At(s', Cur(k), t) ensures t in s'.tasks && s'.tasks[t].cpu == k {
      if k != c {
        assert At(s, Cur(k), t);
        assert At(s, Cur(c), t) ==> Cur(c) == Cur(k);
        assert Pinned(s, t);
      }
    }
    forall t | t in s'.tasks && s'.tasks[t].cpu != -1 ensures 0 <= s'.tasks[t].cpu && At(s', Cur(s'.tasks[t].cpu), t) {
      if t != next {
        assert At(s, Cur(s.tasks[t].cpu), t);
      }
    }
  }

  lemma InstallInv(s: State, c: nat, cpus: nat)
    requires Inv(s, cpus) && c < cpus && s.prev[c] == None && s.stack[c] == s.current[c]
    ensures var s1 := SaveCurrent(s, c);
            NextTask(s1, c) in s1.tasks && Inv(Install(s1, c, NextTask(s1, c)), cpus)
  {
    var s1 := SaveCurrent(s, c);
    var next := NextTask(s1, c);
    SavedTasks(s, c, cpus);
    NextIsFree(s, c, cpus);
    var s' := Install(s1, c, next);
    MovedByInstall(s, s1, c, next);
    MovedPlaces(s, s', c, next);
    MovedOnCpu(s, s1, s', c, next);
    MovedCpu(s, s1, s', c, next);
  }

  /** `kmt_schedule` keeps the invariant. */
  lemma ScheduleInv(s: State, c: nat, cpus: nat)
    requires Inv(s, cpus) && c < cpus && s.stack[c] == s.current[c]
    ensures Inv(Schedule(s, c), cpus)
  {
    ReleaseInv(s, c, cpus);
    InstallInv(ReleasePrev(s, c), c, cpus);
  }

  // ------------------------------------------------------------------ what scheduling leaves alone

  /** The same tasks, in the same run states. */
  ghost predicate SameStates(s: State, s': State) {
    && s'.tasks.Keys == s.tasks.Keys
    && (forall t :: t in s.tasks ==> s'.tasks[t].state == s.tasks[t].state
                                     && s'.tasks[t].isUser == s.tasks[t].isUser
                                     && s'.tasks[t].zombie == s.tasks[t].zombie)
  }

  lemma SaveKeepsStates(s: State, c: nat)
    requires c < |s.current|
    ensures SameStates(s, SaveCurrent(s, c))
  {
  }

  lemma InstallKeepsStates(s: State, c: nat, next: TaskId)
    requires c < |s.current| == |s.prev| && next in s.tasks
    ensures SameStates(s, Install(s, c, next))
  {
  }

  lemma NextIsRunnable(s: State, c: nat)
    requires c < |s.current|
    ensures NextTask(s, c) == Idle(c) || (NextTask(s, c) in s.tasks && s.tasks[NextTask(s, c)].state == Runnable)
  {
    PickSchedulable(s, if s.current[c] == Some(Idle(c)) then None else s.current[c]);
  }

  /** `kmt_schedule` changes no run state, and what it makes current is runnable. */
  lemma ScheduleKeeps(s: State, c: nat, cpus: nat)
    requires Inv(s, cpus) && c < cpus && s.stack[c] == s.current[c]
    ensures var s' := Schedule(s, c);
            && SameStates(s, s') && s'.list == s.list && s'.stack == s.stack
            && |s'.current| == cpus
            && s'.current[c].Some? && s'.current[c].value in s.tasks
            && (s'.current[c].value == Idle(c) || s.tasks[s'.current[c].value].state == Runnable)
            && (forall k :: 0 <= k < cpus && k != c ==> s'.current[k] == s.current[k])
  {
    var r := ReleasePrev(s, c);
    ReleaseInv(s, c, cpus);
    var s1 := SaveCurrent(r, c);
    SaveKeepsStates(r, c);
    NextIsFree(r, c, cpus);
    NextIsRunnable(s1, c);
    InstallKeepsStates(s1, c, NextTask(s1, c));
    assert SameStates(s, r);
  }

  // ------------------------------------------------------------------ whose turn it is

  /** CPU `c` may run `t`: it is runnable, current on no CPU, and no other CPU is still on its stack. */
  ghost predicate Eligible(s: State, c: nat, t: TaskId) {
    && t in s.tasks && s.tasks[t].state == Runnable
    && (forall d :: 0 <= d < |s.current| ==> s.current[d] != Some(t))
    && (forall d :: 0 <= d < |s.prev| && d != c ==> s.prev[d] != Some(t))
  }

  /** CPU `c` looks for a task from position `start` of the list on: behind the thread it runs, or at the head. */
  ghost predicate StartsAt(s: State, c: nat, start: nat) {
    && c < |s.current| && start <= |s.list|
    && if s.current[c].Some? && s.current[c].value.Thread? then start > 0 && s.list[start - 1] == s.current[c].value
       else start == 0
  }

  /** Position `i` of a list that is followed by itself. */
  function Cyclic(list: seq<TaskId>, i: nat): TaskId
    requires i < 2 * |list|
  {
    list[if i < |list| then i else i - |list|]
  }

  /** The task `j` places on from `start` is eligible. */
  ghost predicate EligibleAt(s: State, c: nat, start: nat, j: nat)
    requires start + j < 2 * |s.list|
  {
    Eligible(s, c, Cyclic(s.list, start + j))
  }

  /** The first eligible task of the list, once round from `start` and at most 200001 places, is `next`, `k`
      places on; if there is none, it is the idle task. */
  ghost predicate TurnAt(s: State, c: nat, start: nat, k: nat, next: TaskId) {
    var n := Min(|s.list|, STEP_LIMIT);
    && StartsAt(s, c, start) && k <= n
    && (forall j: nat :: j < k ==> !EligibleAt(s, c, start, j))
    && if k < n then EligibleAt(s, c, start, k) && next == Cyclic(s.list, start + k) else next == Idle(c)
  }

  ghost predicate IsTurnOf(s: State, c: nat, next: TaskId) {
    exists start: nat, k: nat :: TurnAt(s, c, start, k, next)
  }

  /** There is only one such task. */
  lemma OneTurn(s: State, c: nat, a: TaskId, b: TaskId)
    requires (forall i, j :: 0 <= i < j < |s.list| ==> s.list[i] != s.list[j]) && IsTurnOf(s, c, a) && IsTurnOf(s, c, b)
    ensures a == b
  {
    var start: nat, k: nat :| TurnAt(s, c, start, k, a);
    var start': nat, k': nat :| TurnAt(s, c, start', k', b);
    assert start == start';
  }

  /** After release and save, exactly the eligible tasks of the list are schedulable. */
  lemma SchedulableIsEligible(s: State, c: nat, cpus: nat, t: TaskId)
    requires Inv(s, cpus) && c < cpus && s.stack[c] == s.current[c] && t in s.list
    ensures Schedulable(SaveCurrent(ReleasePrev(s, c), c).tasks, t) <==> Eligible(s, c, t)
  {
    var r := ReleasePrev(s, c);
    ReleaseInv(s, c, cpus);
    SchedulableIsUnpinned(r, c, cpus, t);
    ReleasedPlaces(s, c, cpus, t);
    if d: nat :| d < cpus && s.current[d] == Some(t) {
      assert At(r, Cur(d), t);
    } else if d: nat :| d < cpus && d != c && s.prev[d] == Some(t) {
      assert At(r, Prev(d), t);
    } else {
      assert !Pinned(r, t);
    }
  }

  /** Saving the running task frees nobody: it keeps its stack. */
  lemma SchedulableIsUnpinned(s: State, c: nat, cpus: nat, t: TaskId)
    requires Inv(s, cpus) && c < cpus && s.prev[c] == None && t in s.tasks
    ensures Schedulable(SaveCurrent(s, c).tasks, t) <==> s.tasks[t].state == Runnable && !Pinned(s, t)
  {
    SavedTasks(s, c, cpus);
    SaveKeepsStates(s, c);
  }

  /** After the release only the previous task of CPU `c` is freed. */
  lemma ReleasedPlaces(s: State, c: nat, cpus: nat, t: TaskId)
    requires Inv(s, cpus) && c < cpus && s.stack[c] == s.current[c]
    ensures forall p :: At(ReleasePrev(s, c), p, t) <==> At(s, p, t) && p != Prev(c)
    ensures t in s.tasks ==> t in ReleasePrev(s, c).tasks && ReleasePrev(s, c).tasks[t].state == s.tasks[t].state
  {
    ReleaseInv(s, c, cpus);
  }

  lemma CyclicOrderAt(ts: seq<TaskId>, after: Option<TaskId>, start: nat, j: nat)
    requires j < |ts| && start <= |ts| && (forall i, j :: 0 <= i < j < |ts| ==> ts[i] != ts[j])
    requires if after.Some? then start > 0 && ts[start - 1] == after.value else start == 0
    ensures CyclicOrder(ts, after)[j] == Cyclic(ts, start + j)
  {
    if after.Some? {
      assert IndexOf(ts, after.value) == start - 1;
    }
  }

  /** On every CPU, whatever the others run, `kmt_schedule` gives it the task whose turn it is. */
  lemma ScheduleTakesTurn(s: State, c: nat, cpus: nat)
    requires Inv(s, cpus) && c < cpus && s.stack[c] == s.current[c]
    ensures |Schedule(s, c).current| == cpus && Schedule(s, c).current[c].Some?
    ensures IsTurnOf(s, c, Schedule(s, c).current[c].value)
  {
    ScheduleKeeps(s, c, cpus);
    ReleaseInv(s, c, cpus);
    NextIsFree(ReleasePrev(s, c), c, cpus);
    var s1 := SaveCurrent(ReleasePrev(s, c), c);
    var start := FindStart(s, c, cpus);
    var after := if s.current[c] == Some(Idle(c)) then None else s.current[c];
    var order := Prefix(CyclicOrder(s.list, after), STEP_LIMIT);
    forall j | 0 <= j < |order|
      ensures order[j] == Cyclic(s.list, start + j) && (Schedulable(s1.tasks, order[j]) <==> Eligible(s, c, order[j]))
    {
      CyclicOrderAt(s.list, after, start, j);
      SchedulableIsEligible(s, c, cpus, order[j]);
    }
    var k := TurnFrom(s, c, s1.tasks, order, start);
    assert TurnAt(s, c, start, k, NextTask(s1, c));
  }

  /** Where CPU `c` starts to look. */
  lemma FindStart(s: State, c: nat, cpus: nat) returns (start: nat)
    requires Inv(s, cpus) && c < cpus
    ensures StartsAt(s, c, start)
    ensures start == 0 <==> s.current[c].None? || s.current[c] == Some(Idle(c))
  {
    start := 0;
    if s.current[c].Some? {
      var t := s.current[c].value;
      assert At(s, Cur(c), t);
      if t.Thread? {
        var i :| 0 <= i < |s.list| && s.list[i] == t;
        start := i + 1;
      }
    }
  }

  lemma TurnFrom(s: State, c: nat, tasks: map<TaskId, Task>, order: seq<TaskId>, start: nat) returns (k: nat)
    requires StartsAt(s, c, start) && |order| == Min(|s.list|, STEP_LIMIT)
    requires forall j :: 0 <= j < |order| ==>
               order[j] == Cyclic(s.list, start + j) && (Schedulable(tasks, order[j]) <==> Eligible(s, c, order[j]))
    ensures TurnAt(s, c, start, k, match FirstSchedulable(tasks, order) case Some(t) => t case None => Idle(c))
  {
    FirstSchedulableIsFirst(tasks, order);
    k := |order|;
    if FirstSchedulable(tasks, order).Some? {
      k :| 0 <= k < |order| && order[k] == FirstSchedulable(tasks, order).value && Schedulable(tasks, order[k])
           && forall i :: 0 <= i < k ==> !Schedulable(tasks, order[i]);
    }
    forall j: nat | j < k ensures !EligibleAt(s, c, start, j) {
      assert !Schedulable(tasks, order[j]);
    }
  }

  /** Removing one task from the list. */
  lemma ListWithout(list: seq<TaskId>, t: TaskId, u: TaskId)
    requires t in list && (forall i, j :: 0 <= i < j < |list| ==> list[i] != list[j])
    ensures var k := IndexOf(list, t);
            var list' := list[..k] + list[k + 1..];
            && (u in list' <==> u in list && u != t)
            && (forall i, j :: 0 <= i < j < |list'| ==> list'[i] != list'[j])
  {
    var k := IndexOf(list, t);
    var list' := list[..k] + list[k + 1..];
    assert forall i :: 0 <= i < |list'| ==> list'[i] == list[if i < k then i else i + 1];
    if u in list && u != t {
      var i :| 0 <= i < |list| && list[i] == u;
      assert list'[if i < k then i else i - 1] == u;
    }
  }

  /** The places and flags stay as they were. */
  lemma SamePlaces(s: State, s': State, cpus: nat)
    requires Inv(s, cpus) && Shape(s', cpus)
    requires s'.current == s.current && s'.prev == s.prev && StackOk(s', cpus)
    requires forall t :: t in s'.tasks && t in s.tasks ==> s'.tasks[t].cpu == s.tasks[t].cpu && s'.tasks[t].onCpu == s.tasks[t].onCpu
    requires forall t :: t in s'.tasks && t !in s.tasks ==> s'.tasks[t].cpu == -1 && !s'.tasks[t].onCpu
    requires forall t :: t in s.tasks && t !in s'.tasks ==> !s.tasks[t].onCpu
    ensures Inv(s', cpus)
  {
    assert forall p, t :: At(s', p, t) <==> At(s, p, t);
    forall t | t in s'.tasks && s'.tasks[t].onCpu ensures Pinned(s', t) {
      assert Pinned(s, t);
      var p :| At(s, p, t);
      assert At(s', p, t);
    }
  }
}
