/** Round-robin scheduling on one CPU (`oslabs/kernel/src/kmt.c:132-199`): with a fixed set of at least
two runnable threads, consecutive schedules visit them in list order, each once per round.
 */
module RoundRobin {
  import opened Common
  import opened Scheduler

  predicate Runs(tasks: map<TaskId, Task>, t: TaskId) {
    t in tasks && tasks[t].state == Runnable
  }

  /** The runnable threads, in list order. */
  function Runnables(tasks: map<TaskId, Task>, ts: seq<TaskId>): seq<TaskId> {
    if ts == [] then []
    else (if Runs(tasks, ts[0]) then [ts[0]] else []) + Runnables(tasks, ts[1..])
  }

  lemma {:induction false} RunnablesConcat(tasks: map<TaskId, Task>, a: seq<TaskId>, b: seq<TaskId>)
    ensures Runnables(tasks, a + b) == Runnables(tasks, a) + Runnables(tasks, b)
  {
    if a == [] {
      assert a + b == b;
    } else {
      assert (a + b)[1..] == a[1..] + b;
      RunnablesConcat(tasks, a[1..], b);
    }
  }

  lemma {:induction false} RunnablesWithin(tasks: map<TaskId, Task>, ts: seq<TaskId>, t: TaskId)
    ensures t in Runnables(tasks, ts) <==> t in ts && Runs(tasks, t)
  {
    if ts != [] {
      RunnablesWithin(tasks, ts[1..], t);
      assert ts == [ts[0]] + ts[1..];
    }
  }

  lemma {:induction false} RunnablesSame(tasks: map<TaskId, Task>, tasks': map<TaskId, Task>, ts: seq<TaskId>)
    requires forall t :: t in ts ==> (Runs(tasks, t) <==> Runs(tasks', t))
    ensures Runnables(tasks, ts) == Runnables(tasks', ts)
  {
    if ts != [] {
      RunnablesSame(tasks, tasks', ts[1..]);
    }
  }

  lemma {:induction false} RunnablesDistinct(tasks: map<TaskId, Task>, ts: seq<TaskId>)
    requires forall i, j :: 0 <= i < j < |ts| ==> ts[i] != ts[j]
    ensures var r := Runnables(tasks, ts); forall i, j :: 0 <= i < j < |r| ==> r[i] != r[j]
  {
    if ts != [] {
      RunnablesDistinct(tasks, ts[1..]);
      RunnablesWithin(tasks, ts[1..], ts[0]);
    }
  }

  /** The first schedulable task, when all runnable tasks but `cur` are schedulable. */
  lemma {:induction false} FirstIsHead(tasks: map<TaskId, Task>, ts: seq<TaskId>, cur: TaskId)
    requires forall t :: t in ts ==> (Schedulable(tasks, t) <==> Runs(tasks, t) && t != cur)
    requires Runnables(tasks, ts) != [] && Runnables(tasks, ts)[0] != cur
    ensures FirstSchedulable(tasks, ts) == Some(Runnables(tasks, ts)[0])
  {
    if !Runs(tasks, ts[0]) {
      FirstIsHead(tasks, ts[1..], cur);
    }
  }

  /** The index `k` places after `i` in a ring of `n`. */
  function After(i: nat, k: nat, n: nat): nat
    requires i < n && k <= n
  {
    if i + k < n then i + k else i + k - n
  }

  /** Up to and including the `i`-th runnable thread there are `i + 1` of them. */
  lemma SplitAt(tasks: map<TaskId, Task>, ts: seq<TaskId>, k: nat, i: nat)
    requires forall i, j :: 0 <= i < j < |ts| ==> ts[i] != ts[j]
    requires k < |ts| && i < |Runnables(tasks, ts)| && Runnables(tasks, ts)[i] == ts[k]
    ensures Runnables(tasks, ts[..k + 1]) == Runnables(tasks, ts)[..i + 1]
    ensures Runnables(tasks, ts[k + 1..]) == Runnables(tasks, ts)[i + 1..]
  {
    var r := Runnables(tasks, ts);
    var a, b := Runnables(tasks, ts[..k + 1]), Runnables(tasks, ts[k + 1..]);
    RunnablesConcat(tasks, ts[..k + 1], ts[k + 1..]);
    assert ts[..k + 1] + ts[k + 1..] == ts;
    assert r == a + b;
    RunnablesWithin(tasks, ts, ts[k]);
    LastRunnable(tasks, ts[..k + 1]);
    RunnablesDistinct(tasks, ts);
    assert r[|a| - 1] == r[i];
    assert |a| - 1 == i;
  }

  lemma LastRunnable(tasks: map<TaskId, Task>, ts: seq<TaskId>)
    requires ts != [] && Runs(tasks, ts[|ts| - 1])
    ensures var r := Runnables(tasks, ts); r != [] && r[|r| - 1] == ts[|ts| - 1]
  {
    var n := |ts| - 1;
    RunnablesConcat(tasks, ts[..n], [ts[n]]);
    assert ts == ts[..n] + [ts[n]];
    assert [ts[n]][1..] == [];
  }

  /** Seen cyclically from the successor of the `i`-th runnable thread, the next comes first. */
  lemma CyclicRunnables(tasks: map<TaskId, Task>, ts: seq<TaskId>, r: seq<TaskId>, i: nat)
    requires forall i, j :: 0 <= i < j < |ts| ==> ts[i] != ts[j]
    requires r == Runnables(tasks, ts) && i < |r|
    ensures Runnables(tasks, CyclicOrder(ts, Some(r[i]))) == r[i + 1..] + r[..i + 1]
  {
    RunnablesWithin(tasks, ts, r[i]);
    var k := IndexOf(ts, r[i]);
    CyclicFrom(ts, r[i], k);
    SplitAt(tasks, ts, k, i);
    RunnablesConcat(tasks, ts[k + 1..], ts[..k + 1]);
  }

  lemma CyclicFrom(ts: seq<TaskId>, t: TaskId, k: nat)
    requires t in ts && k == IndexOf(ts, t)
    ensures k < |ts| && ts[k] == t && CyclicOrder(ts, Some(t)) == ts[k + 1..] + ts[..k + 1]
  {
  }

  lemma OthersSchedulable(s: State, t: TaskId)
    requires Inv(s, 1) && s.prev[0] == None && s.current[0].Some?
    requires t in s.list
    ensures Schedulable(SaveCurrent(s, 0).tasks, t) <==> Runs(SaveCurrent(s, 0).tasks, t) && s.current[0] != Some(t)
  {
    assert At(s, Cur(0), s.current[0].value);
    if s.current[0] != Some(t) {
      assert forall p :: !At(s, p, t);
      assert !Pinned(s, t);
    }
  }

  /** One turn: the CPU schedules and switches to the new task's stack. */
  function Turn(s: State): State
    requires |s.current| == |s.prev| == |s.stack| == 1
  {
    var s' := Schedule(s, 0);
    s'.(stack := s'.current)
  }

  /** One CPU, running the `i`-th of the runnable threads `r`. */
  ghost predicate Running(s: State, r: seq<TaskId>, i: nat) {
    && Inv(s, 1) && s.stack == s.current && |s.list| <= STEP_LIMIT
    && Runnables(s.tasks, s.list) == r && |r| >= 2
    && i < |r| && s.current[0] == Some(r[i])
  }

  lemma NextInRing(s: State, r: seq<TaskId>, i: nat)
    requires Running(s, r, i) && s.prev[0] == None
    ensures NextTask(SaveCurrent(s, 0), 0) == r[After(i, 1, |r|)]
  {
    var s1 := SaveCurrent(s, 0);
    SavedTasks(s, 0, 1);
    SaveKeepsStates(s, 0);
    RunnablesSame(s.tasks, s1.tasks, s.list);
    RunnablesWithin(s.tasks, s.list, r[i]);
    CyclicRunnables(s1.tasks, s.list, r, i);
    RunnablesDistinct(s.tasks, s.list);
    var ts := CyclicOrder(s.list, Some(r[i]));
    forall t | t in ts ensures Schedulable(s1.tasks, t) <==> Runs(s1.tasks, t) && t != r[i] {
      OthersSchedulable(s, t);
    }
    FirstIsHead(s1.tasks, ts, r[i]);
  }

  lemma ReleaseRunning(s: State, r: seq<TaskId>, i: nat)
    requires Running(s, r, i)
    ensures Running(ReleasePrev(s, 0), r, i) && ReleasePrev(s, 0).prev[0] == None
  {
    ReleaseInv(s, 0, 1);
    RunnablesSame(s.tasks, ReleasePrev(s, 0).tasks, s.list);
  }

  /** One turn moves the CPU to the next runnable thread. */
  lemma TurnAdvances(s: State, s': State, r: seq<TaskId>, i: nat)
    requires Running(s, r, i) && Turned(s, s')
    ensures Running(s', r, After(i, 1, |r|))
  {
    var s1 := Schedule(s, 0);
    ReleaseRunning(s, r, i);
    NextInRing(ReleasePrev(s, 0), r, i);
    ScheduleInv(s, 0, 1);
    ScheduleKeeps(s, 0, 1);
    NextIsFree(ReleasePrev(s, 0), 0, 1);
    RunnablesSame(s.tasks, s1.tasks, s.list);
    SamePlaces(s1, s', 1);
  }

  ghost predicate Turned(s: State, s': State) {
    |s.current| == |s.prev| == |s.stack| == 1 && s' == Turn(s)
  }

  /** Consecutive states, one turn apart. */
  ghost predicate IsRound(run: seq<State>) {
    forall k :: 0 <= k < |run| - 1 ==> Turned(run[k], run[k + 1])
  }

  /** After `k` turns the CPU runs the `k`-th runnable thread from where it started, cyclically. */
  lemma {:induction false} TurnsAdvance(run: seq<State>, r: seq<TaskId>, i: nat, k: nat)
    requires IsRound(run) && k < |run| && k <= |r| && Running(run[0], r, i)
    ensures Running(run[k], r, After(i, k, |r|))
  {
    if k > 0 {
      TurnsAdvance(run, r, i, k - 1);
      var j := After(i, k - 1, |r|);
      assert After(j, 1, |r|) == After(i, k, |r|);
      TurnAdvances(run[k - 1], run[k], r, j);
    }
  }

  /** The task that CPU 0 runs. */
  predicate Runs0(s: State, t: TaskId) {
    |s.current| == 1 && s.current[0] == Some(t)
  }

  /** Going once round the ring meets every element exactly once. */
  lemma RingVisitsOnce(r: seq<TaskId>, i: nat, t: TaskId) returns (k: nat)
    requires i < |r| && t in r && forall i, j :: 0 <= i < j < |r| ==> r[i] != r[j]
    ensures 1 <= k <= |r| && r[After(i, k, |r|)] == t
    ensures forall k' :: 1 <= k' <= |r| && r[After(i, k', |r|)] == t ==> k' == k
  {
    var j :| 0 <= j < |r| && r[j] == t;
    k := if j > i then j - i else j - i + |r|;
  }

  /** `n` consecutive schedules from one of `n` runnable threads run each of them exactly once. */
  lemma EachRunsOnce(run: seq<State>, r: seq<TaskId>, i: nat, t: TaskId)
    requires IsRound(run) && |run| == |r| + 1 && Running(run[0], r, i) && t in r
    ensures exists k :: 1 <= k <= |r| && Runs0(run[k], t)
    ensures forall k, k' :: 1 <= k <= |r| && 1 <= k' <= |r| && Runs0(run[k], t) && Runs0(run[k'], t) ==> k == k'
  {
    RunnablesDistinct(run[0].tasks, run[0].list);
    assert r == Runnables(run[0].tasks, run[0].list);
    var m := RingVisitsOnce(r, i, t);
    forall k: nat | 1 <= k <= |r| ensures Runs0(run[k], t) <==> k == m {
      TurnsAdvance(run, r, i, k);
      assert run[k].current[0] == Some(r[After(i, k, |r|)]);
    }
    assert Runs0(run[m], t);
  }
}
