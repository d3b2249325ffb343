/** The scheduler and the semaphores of `oslabs/kernel/src/kmt.c`, in place: the loops over the task list
and the wait queues, each proved to be the corresponding step of `Scheduler` and `Semaphores`.

The singly-linked task list and wait queues are sequences; following `sched_next` or `sem_next` is
moving to the next index.  `stack` and `pc` are ghost.
 */
module Kmt {
  import opened Common
  import opened Scheduler
  import Semaphores

  /** Where the walk stands `k` links after `start`, in a list of `n`. */
  function RingIndex(start: nat, k: nat, n: nat): nat
    requires start <= n
  {
    if start + k < n then start + k else start + k - n
  }

  lemma CyclicAt(ts: seq<TaskId>, after: Option<TaskId>, start: nat, k: nat)
    requires k < |ts| && start < |ts|
    requires start == if after.None? then 0 else RingIndex(IndexOf(ts, after.value) , 1, |ts|)
    requires after.Some? ==> after.value in ts
    ensures CyclicOrder(ts, after)[k] == ts[RingIndex(start, k, |ts|)]
  {
    if after.Some? {
      var i := IndexOf(ts, after.value) + 1;
      assert CyclicOrder(ts, after) == ts[i..] + ts[..i];
      RotatedAt(ts, i, k);
      assert start == if i < |ts| then i else 0;
    }
  }

  lemma RotatedAt(ts: seq<TaskId>, i: nat, k: nat)
    requires i <= |ts| && k < |ts|
    ensures (ts[i..] + ts[..i])[k] == if i + k < |ts| then ts[i + k] else ts[i + k - |ts|]
  {
    if i + k < |ts| {
      assert (ts[i..] + ts[..i])[k] == ts[i..][k];
    } else {
      assert (ts[i..] + ts[..i])[k] == ts[..i][k - (|ts| - i)];
    }
  }

  /** The search may skip a task that is not schedulable. */
  lemma SkipFirst(tasks: map<TaskId, Task>, ts: seq<TaskId>, k: nat)
    requires k < |ts|
    ensures Schedulable(tasks, ts[k]) ==> FirstSchedulable(tasks, ts[k..]) == Some(ts[k])
    ensures !Schedulable(tasks, ts[k]) ==> FirstSchedulable(tasks, ts[k..]) == FirstSchedulable(tasks, ts[k + 1..])
  {
    assert ts[k..][1..] == ts[k + 1..];
  }

  lemma {:induction false} FirstIndex(ts: seq<TaskId>, t: TaskId, p: nat)
    requires p <= |ts| && (forall k :: 0 <= k < p ==> ts[k] != t) && (p < |ts| ==> ts[p] == t)
    ensures IndexOf(ts, t) == p
  {
    if p > 0 {
      FirstIndex(ts[1..], t, p - 1);
    }
  }

  /** The list without the first `t`. */
  function Without(ts: seq<TaskId>, t: TaskId): seq<TaskId> {
    var j := IndexOf(ts, t);
    if j < |ts| then ts[..j] + ts[j + 1..] else ts
  }

  lemma ReapStep(k: Semaphores.Kernel, t: TaskId, k': Semaphores.Kernel, cpus: nat)
    requires Semaphores.Inv(k, cpus) && t in k.sched.tasks && t.Thread? && k.sched.tasks[t].zombie && !k.sched.tasks[t].onCpu
    requires k' == k.(sched := k.sched.(tasks := k.sched.tasks - {t}, list := Without(k.sched.list, t)), pc := k.pc - {t})
    ensures Semaphores.Next(k, Semaphores.Reap(t), k') && Semaphores.Inv(k', cpus)
  {
    assert t in k.sched.list;
    assert Semaphores.Next(k, Semaphores.Reap(t), k');
    Semaphores.StepInv(k, Semaphores.Reap(t), k', cpus);
  }

  class Kernel {
    var tasks: map<TaskId, Task>
    var list: seq<TaskId>
    var current: seq<Option<TaskId>>
    var prev: seq<Option<TaskId>>
    ghost var stack: seq<Option<TaskId>>
    var sems: seq<Semaphores.Sem>
    ghost var pc: map<TaskId, Semaphores.Pc>

    ghost function Sched(): State
      reads this
    {
      State(tasks, list, current, prev, stack)
    }

    ghost function View(): Semaphores.Kernel
      reads this
    {
      Semaphores.Kernel(Sched(), sems, pc)
    }

    /** `kmt_init`: one idle task per CPU, nothing running. */
    constructor (cpus: nat)
      ensures Semaphores.Init(View(), cpus) && Semaphores.Inv(View(), cpus)
    {
      tasks := map c: nat | c < cpus :: Idle(c) := Task(Runnable, -1, false, false, false);
      list := [];
      current := seq(cpus, _ => None);
      prev := seq(cpus, _ => None);
      stack := seq(cpus, _ => None);
      sems := [];
      pc := map[];
      new;
      assert forall t :: t in tasks <==> t.Idle? && t.owner < cpus;
      Semaphores.InitInv(View(), cpus);
    }

    /** Where `pick_next` starts: behind `after`, or at the head. */
    method FirstToTry(after: Option<TaskId>) returns (start: nat)
      requires list != [] && (after.Some? ==> after.value in list)
      ensures start < |list| && start == if after.None? then 0 else RingIndex(IndexOf(list, after.value), 1, |list|)
    {
      start := 0;
      if after.Some? {
        var i := IndexOf(list, after.value);
        start := if i + 1 < |list| then i + 1 else 0;
      }
    }

    /** `pick_next`: a walk along the list from the successor of `after`, wrapping at its end. */
    method PickNext(after: Option<TaskId>) returns (next: Option<TaskId>)
      requires after.Some? ==> after.value in list
      ensures next == Scheduler.PickNext(Sched(), after)
    {
      var n := |list|;
      ghost var order := Prefix(CyclicOrder(list, after), STEP_LIMIT);
      if n == 0 {
        return None;
      }
      var start := FirstToTry(after);
      var t, steps := start, 0;
      while steps < STEP_LIMIT
        invariant steps <= STEP_LIMIT && steps < n && t == RingIndex(start, steps, n)
        invariant steps <= |order|
        invariant Scheduler.PickNext(Sched(), after) == FirstSchedulable(tasks, order[steps..])
      {
        CyclicAt(list, after, start, steps);
        SkipFirst(tasks, order, steps);
        if Schedulable(tasks, list[t]) {
          next := Some(list[t]);
          return;
        }
        t := if t + 1 < n then t + 1 else 0;
        steps := steps + 1;
        if t == start {
          assert order[steps..] == [];
          return None;
        }
      }
      assert order[steps..] == [];
      next := None;
    }

    /** The deferred release of `kmt_schedule`. */
    method Release(c: nat)
      requires Inv(Sched(), |current|) && c < |current| && stack[c] == current[c]
      modifies this`tasks, this`prev
      ensures Sched() == ReleasePrev(old(Sched()), c)
      ensures Inv(Sched(), |current|) && prev[c] == None
    {
      ReleaseInv(Sched(), c, |current|);
      if prev[c].Some? && prev[c] != current[c] {
        var p := prev[c].value;
        assert At(Sched(), Prev(c), p);
        tasks := tasks[p := tasks[p].(onCpu := false)];
        prev := prev[c := None];
      }
    }

    /** Save the running task: it gives up the CPU but keeps its stack. */
    method Save(c: nat)
      requires c < |current| && (current[c].Some? ==> current[c].value in tasks)
      modifies this`tasks
      ensures Sched() == SaveCurrent(old(Sched()), c)
    {
      if current[c].Some? {
        var t := current[c].value;
        tasks := tasks[t := tasks[t].(cpu := -1)];
        if t != Idle(c) && tasks[t].state != Blocked && tasks[t].state != Dead {
          tasks := tasks[t := tasks[t].(state := Runnable)];
        }
        assert tasks == SaveCurrent(old(Sched()), c).tasks;
      }
    }

    /** Hand the CPU to `next`. */
    method Dispatch(c: nat, next: TaskId)
      requires c < |current| == |prev| && next in tasks
      modifies this`tasks, this`current, this`prev
      ensures Sched() == Install(old(Sched()), c, next)
    {
      var cur := current[c];
      tasks := tasks[next := tasks[next].(cpu := c)];
      tasks := tasks[next := tasks[next].(onCpu := true)];
      current := current[c := Some(next)];
      if cur.Some? && cur.value != next {
        prev := prev[c := cur];
      } else {
        prev := prev[c := None];
      }
      assert tasks == Install(old(Sched()), c, next).tasks;
    }

    /** `kmt_schedule` on CPU `c`: one `Trap` of the state machine. */
    method Schedule(c: nat)
      requires Inv(Sched(), |current|) && c < |current| && stack[c] == current[c]
      modifies this`tasks, this`current, this`prev
      ensures Sched() == Scheduler.Schedule(old(Sched()), c)
      ensures |current| == old(|current|) && Inv(Sched(), |current|)
      ensures current[c].Some? && IsTurnOf(old(Sched()), c, current[c].value)
    {
      ghost var n := |current|;
      ScheduleInv(Sched(), c, n);
      ScheduleTakesTurn(Sched(), c, n);
      Release(c);
      NextIsFree(Sched(), c, n);
      ghost var s := Sched();
      assert current[c].Some? ==> At(s, Cur(c), current[c].value);
      Save(c);
      var after := if current[c].Some? && current[c].value != Idle(c) then current[c] else None;
      assert current[c].Some? && current[c].value.Idle? ==> At(s, Cur(c), current[c].value);
      var next := PickNext(after);
      Dispatch(c, if next.Some? then next.value else Idle(c));
    }

    /** `kmt_sem_wait` by the task running on CPU `c`, up to its yield: a walk to the end of the queue. */
    method SemWait(c: nat, i: nat)
      requires Semaphores.Inv(View(), |current|) && c < |current| && i < |sems|
      requires current[c].Some? && stack[c] == current[c]
      requires var t := current[c].value;
               t in tasks && t.Thread? && !tasks[t].isUser && t in pc && pc[t] == Semaphores.Ready
      modifies this`tasks, this`sems, this`pc
      ensures Semaphores.Next(old(View()), Semaphores.SemWait(c, current[c].value, i), View())
      ensures Semaphores.Inv(View(), |current|)
    {
      ghost var was := View();
      var self := current[c].value;
      var sem := sems[i];
      sem := sem.(value := sem.value - 1);
      if sem.value < 0 {
        if sem.queue == [] {
          sem := sem.(queue := [self]);
        } else {
          var t := 0;
          while t + 1 < |sem.queue|
            invariant t < |sem.queue|
          {
            t := t + 1;
          }
          sem := sem.(queue := sem.queue[..t + 1] + [self]);
          assert sem.queue == was.sems[i].queue + [self];
        }
        sem := sem.(arrivals := sem.arrivals + [self]);
        tasks := tasks[self := tasks[self].(state := Blocked)];
        pc := pc[self := Semaphores.Window(i)];
      } else {
        sem := sem.(done := sem.done + 1);
      }
      sems := sems[i := sem];
      assert sem == Semaphores.P(was.sems[i], self);
      Semaphores.StepInv(was, Semaphores.SemWait(c, self, i), View(), |current|);
    }

    /** `kmt_sem_signal`. */
    method SemSignal(i: nat)
      requires Semaphores.Inv(View(), |current|) && i < |sems|
      modifies this`tasks, this`sems
      ensures Semaphores.Next(old(View()), Semaphores.SemSignal(i), View())
      ensures Semaphores.Inv(View(), |current|)
    {
      ghost var was := View();
      assert Semaphores.SemOk(sems[i], pc, i);
      var sem := sems[i];
      sem := sem.(value := sem.value + 1, signals := sem.signals + 1);
      if sem.value <= 0 && sem.queue != [] {
        var w := sem.queue[0];
        assert Semaphores.Pends(pc, i, w) && Semaphores.PcOk(was, w);
        sem := sem.(queue := sem.queue[1..], woken := sem.woken + [w]);
        tasks := tasks[w := tasks[w].(state := Runnable)];
      }
      sems := sems[i := sem];
      Semaphores.StepInv(was, Semaphores.SemSignal(i), View(), |current|);
    }

    /** `kmt_create` and `kmt_register`: the new task becomes the head of the list. */
    method Create(n: nat, isUser: bool)
      requires Semaphores.Inv(View(), |current|) && Thread(n) !in tasks
      modifies this`tasks, this`list, this`pc
      ensures Semaphores.Next(old(View()), Semaphores.Create(n, isUser), View())
      ensures Semaphores.Inv(View(), |current|)
    {
      ghost var was := View();
      tasks := tasks[Thread(n) := Task(Runnable, -1, false, isUser, false)];
      list := [Thread(n)] + list;
      pc := pc[Thread(n) := Semaphores.Ready];
      Semaphores.StepInv(was, Semaphores.Create(n, isUser), View(), |current|);
    }

    /** `kmt_teardown`: a walk to the link that points at `t`; a task not in the list changes nothing. */
    method Unlink(t: TaskId)
      modifies this`list
      ensures list == Without(old(list), t)
    {
      var p := 0;
      while p < |list| && list[p] != t
        invariant p <= |list| && forall k :: 0 <= k < p ==> list[k] != t
      {
        p := p + 1;
      }
      FirstIndex(list, t, p);
      if p < |list| {
        list := list[..p] + list[p + 1..];
      }
    }

    /** Reaping a zombie that is off every CPU: unlink it and forget it. */
    method Reap(t: TaskId)
      requires Semaphores.Inv(View(), |current|) && t in tasks && t.Thread? && tasks[t].zombie && !tasks[t].onCpu
      modifies this`tasks, this`list, this`pc
      ensures Semaphores.Next(old(View()), Semaphores.Reap(t), View())
      ensures Semaphores.Inv(View(), |current|)
    {
      ghost var was := View();
      Unlink(t);
      tasks := tasks - {t};
      pc := pc - {t};
      ReapStep(was, t, View(), |current|);
    }
  }
}
