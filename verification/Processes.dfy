/** The life of user processes: fork, exit, wait, sleep and the timer tick of
`oslabs/kernel/src/uproc.c`, each system call one step.

A blocking call rewinds the trap, so the process issues the same call again when it next runs:
`rewound` is that part of its program counter.  `exits` and `reaps` are history.  Whether a process is
still on a CPU (`onCpu`) may change at any time.
 */
module Processes {
  import opened Common

  const INIT: nat := 1
  const MAXPROC: nat := 64

  datatype RunState = Runnable | Blocked

  datatype Rewound = No | InWait | InSleep

  datatype Proc = Proc(
    parent: Option<nat>,
    state: RunState,
    zombie: bool,
    exitStatus: int,
    waiting: bool,
    sleeping: bool,
    wakeAt: nat,
    onCpu: bool,
    rewound: Rewound)

  /** A successful wait: `pid` reaped by `parent`, which was given `status` if it asked for it. */
  datatype Reap = Reap(pid: nat, parent: nat, status: Option<int>)

  type Procs = map<nat, Proc>

  datatype State = State(
    procs: Procs,
    table: seq<nat>,           // ptable[0..nptable]
    next: nat,                 // next_pid
    exits: map<nat, int>,      // exit statuses, by pid
    reaps: seq<Reap>)          // successful waits, in order

  // ------------------------------------------------------------------ process table

  predicate IsChild(procs: Procs, c: nat, p: nat) {
    c in procs && procs[c].parent == Some(p)
  }

  predicate IsZombieChild(procs: Procs, c: nat, p: nat) {
    IsChild(procs, c, p) && procs[c].zombie
  }

  /** An exited child that is off every CPU's stack. */
  predicate Reapable(procs: Procs, c: nat, p: nat) {
    IsZombieChild(procs, c, p) && !procs[c].onCpu
  }

  /** The first reapable child of `p` in the table from position `i` on, or the length. */
  function FirstReapable(procs: Procs, table: seq<nat>, p: nat, i: nat): (j: nat)
    requires i <= |table|
    ensures i <= j <= |table|
    ensures j < |table| ==> Reapable(procs, table[j], p)
    ensures forall k :: i <= k < j ==> !Reapable(procs, table[k], p)
    decreases |table| - i
  {
    if i == |table| then i
    else if Reapable(procs, table[i], p) then i
    else FirstReapable(procs, table, p, i + 1)
  }

  ghost predicate HasZombieChild(procs: Procs, table: seq<nat>, p: nat) {
    exists i :: 0 <= i < |table| && IsZombieChild(procs, table[i], p)
  }

  ghost predicate HasChild(procs: Procs, table: seq<nat>, p: nat) {
    exists i :: 0 <= i < |table| && IsChild(procs, table[i], p)
  }

  /** `ptable[i] = ptable[--nptable]`. */
  function SwapRemove(table: seq<nat>, i: nat): seq<nat>
    requires i < |table|
  {
    var last := |table| - 1;
    table[i := table[last]][..last]
  }

  /** `reparent_children`. */
  function Reparent(procs: Procs, dead: nat): Procs {
    map c | c in procs :: if procs[c].parent == Some(dead) then procs[c].(parent := Some(INIT)) else procs[c]
  }

  /** A parent blocked in wait becomes runnable. */
  function WakeWaiter(procs: Procs, parent: Option<nat>): Procs {
    if parent.Some? && parent.value in procs && procs[parent.value].waiting
    then procs[parent.value := procs[parent.value].(waiting := false, state := Runnable)]
    else procs
  }

  /** `sys_exit` of a process other than init. */
  function Exited(procs: Procs, p: nat, status: int): Procs
    requires p in procs
  {
    var procs1 := Reparent(procs[p := procs[p].(exitStatus := status, zombie := true)], p);
    var procs2 := WakeWaiter(procs1, procs1[p].parent);
    procs2[p := procs2[p].(state := Blocked)]
  }

  /** `uproc_tick` at time `now`. */
  function Ticked(procs: Procs, now: nat): Procs {
    map c | c in procs ::
      if procs[c].sleeping && procs[c].state == Blocked && now >= procs[c].wakeAt
      then procs[c].(state := Runnable) else procs[c]
  }

  function Fresh(parent: Option<nat>): Proc {
    Proc(parent, Runnable, false, 0, false, false, 0, false, No)
  }

  // ------------------------------------------------------------------ steps

  datatype Step =
    | Fork(pid: nat)
    | Exit(pid: nat, status: int)
    | Wait(pid: nat, wanted: bool)
    | Sleep(pid: nat, wakeAt: nat, now: nat)
    | Tick(now: nat)
    | SetOnCpu(pid: nat, on: bool)

  /** `p` is about to make a call; a rewound trap makes it the same call again. */
  predicate Calls(s: State, p: nat, again: Rewound) {
    p in s.procs && s.procs[p].state == Runnable && (s.procs[p].rewound == No || s.procs[p].rewound == again)
  }

  function SetProc(s: State, p: nat, proc: Proc): State {
    s.(procs := s.procs[p := proc])
  }

  /** The four outcomes of `try_reap` and of the wait system call. */
  ghost predicate WaitStep(s: State, p: nat, wanted: bool, s': State)
    requires p in s.procs
  {
    var i := FirstReapable(s.procs, s.table, p, 0);
    if i < |s.table| && s.table[i] in s.procs then
      var c := s.table[i];
      var status := if wanted then Some(s.procs[c].exitStatus) else None;
      s' == s.(procs := (s.procs - {c})[p := s.procs[p].(rewound := No)],
               table := SwapRemove(s.table, i),
               reaps := s.reaps + [Reap(c, p, status)])
    else if HasZombieChild(s.procs, s.table, p) then
      s' == SetProc(s, p, s.procs[p].(rewound := InWait))
    else if HasChild(s.procs, s.table, p) then
      s' == SetProc(s, p, s.procs[p].(waiting := true, state := Blocked, rewound := InWait))
    else
      s' == SetProc(s, p, s.procs[p].(rewound := No))
  }

  ghost predicate SleepStep(s: State, p: nat, wakeAt: nat, now: nat, s': State)
    requires p in s.procs
  {
    var proc := s.procs[p];
    s' == SetProc(s, p,
      if !proc.sleeping then proc.(sleeping := true, wakeAt := wakeAt, state := Blocked, rewound := InSleep)
      else if now >= proc.wakeAt then proc.(sleeping := false, rewound := No)
      else proc.(state := Blocked, rewound := InSleep))
  }

  ghost predicate Next(s: State, step: Step, s': State) {
    match step
    case Fork(p) =>
      && Calls(s, p, No) && |s.table| < MAXPROC
      && s' == s.(procs := s.procs[s.next := Fresh(Some(p))], table := s.table + [s.next], next := s.next + 1)
    case Exit(p, status) =>
      && Calls(s, p, No) && p != INIT
      && s' == s.(procs := Exited(s.procs, p, status), exits := s.exits[p := status])
    case Wait(p, wanted) => Calls(s, p, InWait) && WaitStep(s, p, wanted, s')
    case Sleep(p, wakeAt, now) => Calls(s, p, InSleep) && SleepStep(s, p, wakeAt, now, s')
    case Tick(now) => s' == s.(procs := Ticked(s.procs, now))
    case SetOnCpu(p, on) => p in s.procs && s' == SetProc(s, p, s.procs[p].(onCpu := on))
  }

  /** After `uproc_init` has spawned init. */
  ghost predicate Init(s: State) {
    s == State(map[INIT := Fresh(None)], [INIT], INIT + 1, map[], [])
  }

  // ------------------------------------------------------------------ invariant

  ghost predicate TableOk(s: State) {
    && (forall p :: p in s.table <==> p in s.procs)
    && (forall i, j :: 0 <= i < j < |s.table| ==> s.table[i] != s.table[j])
    && (forall p :: p in s.procs ==> p < s.next)
    && |s.table| <= MAXPROC
  }

  /** Every process but init has a live parent in the table, older than itself. */
  ghost predicate ParentOk(procs: Procs, c: nat)
    requires c in procs
  {
    if c == INIT then procs[c].parent == None && !procs[c].zombie
    else procs[c].parent.Some? && procs[c].parent.value in procs
         && !procs[procs[c].parent.value].zombie && procs[c].parent.value < c
  }

  ghost predicate ProcOk(proc: Proc) {
    && (proc.zombie ==> proc.state == Blocked && !proc.waiting && !proc.sleeping && proc.rewound == No)
    && (proc.waiting ==> proc.state == Blocked && proc.rewound == InWait)
    && (proc.sleeping <==> proc.rewound == InSleep)
    && (proc.state == Blocked ==> proc.zombie || proc.waiting || proc.sleeping)
  }

  /** A process other than init that is blocked in wait has no zombie child. */
  ghost predicate WaiterOk(procs: Procs, c: nat)
    requires c in procs
  {
    procs[c].zombie && procs[c].parent.Some? && procs[c].parent.value in procs && procs[procs[c].parent.value].waiting ==>
      procs[c].parent.value == INIT
  }

  /** Exit statuses: every zombie holds the one it exited with; each reaped process is gone for good and
      its parent was given exactly that status, if it asked. */
  ghost predicate HistoryOk(s: State) {
    && (forall c :: c in s.procs && s.procs[c].zombie ==> c in s.exits && s.exits[c] == s.procs[c].exitStatus)
    && (forall i :: 0 <= i < |s.reaps| ==> ReapOk(s, s.reaps[i]))
    && (forall i, j :: 0 <= i < j < |s.reaps| ==> s.reaps[i].pid != s.reaps[j].pid)
  }

  ghost predicate ReapOk(s: State, r: Reap) {
    r.pid !in s.procs && r.pid < s.next && r.pid in s.exits && (r.status.Some? ==> r.status == Some(s.exits[r.pid]))
  }

  ghost predicate ProcsOk(procs: Procs) {
    && INIT in procs
    && (forall c {:trigger ParentOk(procs, c)} :: c in procs ==> ParentOk(procs, c))
    && (forall c {:trigger ProcOk(procs[c])} :: c in procs ==> ProcOk(procs[c]))
    && (forall c {:trigger WaiterOk(procs, c)} :: c in procs ==> WaiterOk(procs, c))
  }

  ghost predicate Inv(s: State) {
    TableOk(s) && ProcsOk(s.procs) && HistoryOk(s)
  }

  // ------------------------------------------------------------------ steps keep the process part

  /** A change to one process that keeps its parent and exit state. */
  lemma UpdateKeeps(procs: Procs, p: nat, proc: Proc)
    requires ProcsOk(procs) && p in procs && ProcOk(proc)
    requires proc.parent == procs[p].parent && proc.zombie == procs[p].zombie
    requires proc.waiting && !procs[p].waiting && p != INIT ==> forall c :: !IsZombieChild(procs, c, p)
    ensures ProcsOk(procs[p := proc])
  {
    var procs' := procs[p := proc];
    forall c | c in procs' ensures ParentOk(procs', c) && ProcOk(procs'[c]) && WaiterOk(procs', c) {
      assert ParentOk(procs, c) && ProcOk(procs[c]) && WaiterOk(procs, c);
      assert IsZombieChild(procs', c, p) ==> IsZombieChild(procs, c, p);
    }
  }

  lemma ForkKeeps(procs: Procs, p: nat, pid: nat)
    requires ProcsOk(procs) && p in procs && procs[p].state == Runnable && pid !in procs && p < pid
    ensures ProcsOk(procs[pid := Fresh(Some(p))])
  {
    var procs' := procs[pid := Fresh(Some(p))];
    assert ProcOk(procs[p]) && INIT in procs;
    forall c | c in procs' ensures ParentOk(procs', c) && ProcOk(procs'[c]) && WaiterOk(procs', c) {
      if c != pid {
        assert ParentOk(procs, c) && ProcOk(procs[c]) && WaiterOk(procs, c);
      }
    }
  }

  /** What exit makes of every process. */
  lemma ExitedAt(procs: Procs, p: nat, status: int, c: nat)
    requires ProcsOk(procs) && p in procs && p != INIT && procs[p].state == Runnable && c in procs
    ensures procs[p].parent.Some?
    ensures var q, procs' := procs[p].parent.value, Exited(procs, p, status);
            && procs'.Keys == procs.Keys && q in procs && q != p
            && (c == p ==> procs'[c] == procs[c].(exitStatus := status, zombie := true, state := Blocked))
            && (c != p ==> procs'[c] == procs[c].(parent := if procs[c].parent == Some(p) then Some(INIT) else procs[c].parent,
                                                 waiting := procs[c].waiting && c != q,
                                                 state := if procs[c].waiting && c == q then Runnable else procs[c].state))
  {
    assert ParentOk(procs, p);
    assert procs[p].parent != Some(p);
  }

  lemma ExitKeeps(procs: Procs, p: nat, status: int)
    requires ProcsOk(procs) && p in procs && p != INIT && procs[p].state == Runnable && procs[p].rewound == No
    ensures ProcsOk(Exited(procs, p, status))
  {
    var procs' := Exited(procs, p, status);
    ExitedAt(procs, p, status, p);
    ExitedAt(procs, p, status, INIT);
    assert ParentOk(procs, INIT) && ParentOk(procs, p);
    forall c | c in procs' ensures ParentOk(procs', c) && ProcOk(procs'[c]) && WaiterOk(procs', c) {
      ExitedAt(procs, p, status, c);
      assert ParentOk(procs, c) && ProcOk(procs[c]) && WaiterOk(procs, c);
      if c != INIT {
        ExitedAt(procs, p, status, procs[c].parent.value);
      }
    }
  }

  /** A zombie has no children, so removing one breaks no parent link. */
  lemma ReapKeeps(procs: Procs, c: nat)
    requires ProcsOk(procs) && c in procs && procs[c].zombie
    ensures ProcsOk(procs - {c})
  {
    var procs' := procs - {c};
    assert ParentOk(procs, c);
    forall d | d in procs' ensures ParentOk(procs', d) && ProcOk(procs'[d]) && WaiterOk(procs', d) {
      assert ParentOk(procs, d) && ProcOk(procs[d]) && WaiterOk(procs, d);
    }
  }

  lemma TickKeeps(procs: Procs, now: nat)
    requires ProcsOk(procs)
    ensures ProcsOk(Ticked(procs, now))
  {
    var procs' := Ticked(procs, now);
    forall c | c in procs' ensures ParentOk(procs', c) && ProcOk(procs'[c]) && WaiterOk(procs', c) {
      assert ParentOk(procs, c) && ProcOk(procs[c]) && WaiterOk(procs, c);
    }
  }

  // ------------------------------------------------------------------ steps keep the table and the history

  lemma SwapRemoved(s: State, i: nat, p: nat)
    requires TableOk(s) && i < |s.table|
    ensures p in SwapRemove(s.table, i) <==> p in s.table && p != s.table[i]
  {
    var last, table := |s.table| - 1, SwapRemove(s.table, i);
    if p in s.table && p != s.table[i] {
      var k :| 0 <= k < |s.table| && s.table[k] == p;
      assert table[if k == last then i else k] == p;
    }
  }

  lemma ReapTable(s: State, i: nat, procs: Procs, reaps: seq<Reap>)
    requires TableOk(s) && i < |s.table| && procs.Keys == s.procs.Keys - {s.table[i]}
    ensures TableOk(s.(procs := procs, table := SwapRemove(s.table, i), reaps := reaps))
  {
    forall p ensures p in SwapRemove(s.table, i) <==> p in procs {
      SwapRemoved(s, i, p);
    }
  }

  lemma ReapHistory(s: State, c: nat, procs: Procs, table: seq<nat>, r: Reap)
    requires HistoryOk(s) && c in s.procs && s.procs[c].zombie && c < s.next
    requires procs.Keys == s.procs.Keys - {c}
    requires forall d :: d in procs ==> procs[d].zombie == s.procs[d].zombie && procs[d].exitStatus == s.procs[d].exitStatus
    requires r.pid == c && (r.status.Some? ==> r.status == Some(s.procs[c].exitStatus))
    ensures HistoryOk(s.(procs := procs, table := table, reaps := s.reaps + [r]))
  {
    var s' := s.(procs := procs, table := table, reaps := s.reaps + [r]);
    forall i | 0 <= i < |s'.reaps| ensures ReapOk(s', s'.reaps[i]) {
      assert i < |s.reaps| ==> ReapOk(s, s.reaps[i]);
    }
    forall i, j | 0 <= i < j < |s'.reaps| ensures s'.reaps[i].pid != s'.reaps[j].pid {
      assert ReapOk(s, s.reaps[i]);
    }
  }

  /** Steps that change no exit state and remove no process. */
  lemma OtherHistory(s: State, procs: Procs, table: seq<nat>, next: nat)
    requires HistoryOk(s) && s.procs.Keys <= procs.Keys && next >= s.next
    requires forall c :: c in procs && c !in s.procs ==> c >= s.next && !procs[c].zombie
    requires forall c :: c in s.procs ==> procs[c].zombie == s.procs[c].zombie && procs[c].exitStatus == s.procs[c].exitStatus
    ensures HistoryOk(s.(procs := procs, table := table, next := next))
  {
    var s' := s.(procs := procs, table := table, next := next);
    forall i | 0 <= i < |s'.reaps| ensures ReapOk(s', s'.reaps[i]) {
      assert ReapOk(s, s.reaps[i]);
    }
  }

  // ------------------------------------------------------------------ every step keeps the invariant

  lemma ForkInv(s: State, p: nat, s': State)
    requires Inv(s) && Next(s, Fork(p), s')
    ensures Inv(s')
  {
    ForkKeeps(s.procs, p, s.next);
    OtherHistory(s, s'.procs, s'.table, s'.next);
  }

  lemma ExitInv(s: State, p: nat, status: int, s': State)
    requires Inv(s) && Next(s, Exit(p, status), s')
    ensures Inv(s')
  {
    ExitKeeps(s.procs, p, status);
    forall c | c in s.procs ensures s'.procs[c].zombie == (s.procs[c].zombie || c == p)
                                    && s'.procs[c].exitStatus == if c == p then status else s.procs[c].exitStatus
    {
      ExitedAt(s.procs, p, status, c);
    }
    ExitedAt(s.procs, p, status, p);
    forall i | 0 <= i < |s'.reaps| ensures ReapOk(s', s'.reaps[i]) {
      assert ReapOk(s, s.reaps[i]);
    }
  }

  lemma ReapInv(s: State, p: nat, i: nat, r: Reap)
    requires Inv(s) && p in s.procs && s.procs[p].state == Runnable && !s.procs[p].sleeping
    requires i < |s.table| && Reapable(s.procs, s.table[i], p)
    requires r.pid == s.table[i] && (r.status.Some? ==> r.status == Some(s.procs[s.table[i]].exitStatus))
    ensures Inv(s.(procs := (s.procs - {s.table[i]})[p := s.procs[p].(rewound := No)],
                   table := SwapRemove(s.table, i),
                   reaps := s.reaps + [r]))
  {
    var c := s.table[i];
    var procs := (s.procs - {c})[p := s.procs[p].(rewound := No)];
    assert ProcOk(s.procs[p]);
    ReapKeeps(s.procs, c);
    UpdateKeeps(s.procs - {c}, p, s.procs[p].(rewound := No));
    ReapTable(s, i, procs, s.reaps + [r]);
    ReapHistory(s, c, procs, SwapRemove(s.table, i), r);
  }

  /** A call that changes only the calling process, and neither its parent nor its exit state. */
  lemma CallInv(s: State, p: nat, proc: Proc)
    requires Inv(s) && p in s.procs && ProcOk(proc)
    requires proc.parent == s.procs[p].parent && proc.zombie == s.procs[p].zombie && proc.exitStatus == s.procs[p].exitStatus
    requires proc.waiting && !s.procs[p].waiting ==> forall c :: !IsZombieChild(s.procs, c, p)
    ensures Inv(SetProc(s, p, proc))
  {
    UpdateKeeps(s.procs, p, proc);
    OtherHistory(s, s.procs[p := proc], s.table, s.next);
  }

  lemma WaitInv(s: State, p: nat, wanted: bool, s': State)
    requires Inv(s) && Next(s, Wait(p, wanted), s')
    ensures Inv(s')
  {
    var i := FirstReapable(s.procs, s.table, p, 0);
    assert ProcOk(s.procs[p]);
    if i < |s.table| && s.table[i] in s.procs {
      var c := s.table[i];
      ReapInv(s, p, i, Reap(c, p, if wanted then Some(s.procs[c].exitStatus) else None));
    } else {
      if !HasZombieChild(s.procs, s.table, p) {
        NoZombieChild(s, p);
      }
      CallInv(s, p, s'.procs[p]);
    }
  }

  lemma NoZombieChild(s: State, p: nat)
    requires TableOk(s) && !HasZombieChild(s.procs, s.table, p)
    ensures forall c :: !IsZombieChild(s.procs, c, p)
  {
    forall c ensures IsZombieChild(s.procs, c, p) ==> exists i :: 0 <= i < |s.table| && IsZombieChild(s.procs, s.table[i], p) {
      assert c in s.procs ==> c in s.table;
    }
  }

  lemma SleepInv(s: State, p: nat, wakeAt: nat, now: nat, s': State)
    requires Inv(s) && Next(s, Sleep(p, wakeAt, now), s')
    ensures Inv(s')
  {
    assert ProcOk(s.procs[p]);
    CallInv(s, p, s'.procs[p]);
  }

  lemma TickInv(s: State, now: nat)
    requires Inv(s)
    ensures Inv(s.(procs := Ticked(s.procs, now)))
  {
    TickKeeps(s.procs, now);
    OtherHistory(s, Ticked(s.procs, now), s.table, s.next);
  }

  lemma OnCpuInv(s: State, p: nat, on: bool)
    requires Inv(s) && p in s.procs
    ensures Inv(SetProc(s, p, s.procs[p].(onCpu := on)))
  {
    assert ProcOk(s.procs[p]);
    CallInv(s, p, s.procs[p].(onCpu := on));
  }

  lemma StepInv(s: State, step: Step, s': State)
    requires Inv(s) && Next(s, step, s')
    ensures Inv(s')
  {
    match step
    case Fork(p) => ForkInv(s, p, s');
    case Exit(p, status) => ExitInv(s, p, status, s');
    case Wait(p, wanted) => WaitInv(s, p, wanted, s');
    case Sleep(p, wakeAt, now) => SleepInv(s, p, wakeAt, now, s');
    case Tick(now) => TickInv(s, now);
    case SetOnCpu(p, on) => OnCpuInv(s, p, on);
  }

  ghost predicate IsRun(states: seq<State>, steps: seq<Step>) {
    && |states| == |steps| + 1
    && Init(states[0])
    && forall i :: 0 <= i < |steps| ==> Next(states[i], steps[i], states[i + 1])
  }

  lemma {:induction false} RunInv(states: seq<State>, steps: seq<Step>, i: nat)
    requires IsRun(states, steps) && i < |states|
    ensures Inv(states[i])
  {
    if i > 0 {
      RunInv(states, steps, i - 1);
      StepInv(states[i - 1], steps[i - 1], states[i]);
    }
  }

  // ------------------------------------------------------------------ consequences

  /** A chain of live parents up to init. */
  ghost predicate IsChain(procs: Procs, chain: seq<nat>) {
    && chain != [] && chain[0] in procs
    && if |chain| == 1 then chain[0] == INIT
       else procs[chain[0]].parent == Some(chain[1]) && chain[1] in procs && !procs[chain[1]].zombie && IsChain(procs, chain[1..])
  }

  /** The parent chain of every process reaches init. */
  lemma {:induction false} ChainToInit(procs: Procs, c: nat) returns (chain: seq<nat>)
    requires ProcsOk(procs) && c in procs
    ensures IsChain(procs, chain) && chain[0] == c
  {
    assert ParentOk(procs, c);
    if c == INIT {
      chain := [c];
    } else {
      var rest := ChainToInit(procs, procs[c].parent.value);
      chain := [c] + rest;
      assert chain[1..] == rest;
    }
  }

  lemma WaiterHasNoZombie(s: State, c: nat)
    requires Inv(s) && c in s.procs && c != INIT && s.procs[c].waiting
    ensures !HasZombieChild(s.procs, s.table, c)
  {
    forall k | 0 <= k < |s.table| ensures !IsZombieChild(s.procs, s.table[k], c) {
      assert s.table[k] in s.procs ==> WaiterOk(s.procs, s.table[k]);
    }
  }

  /** In every state of every run: parents are alive and in the table, their chains reach init, and a
      process other than init that is blocked in wait has no zombie child. */
  lemma Family(states: seq<State>, steps: seq<Step>, i: nat, c: nat)
    requires IsRun(states, steps) && i < |states| && c in states[i].procs
    ensures exists chain :: IsChain(states[i].procs, chain) && chain[0] == c
    ensures var s := states[i];
            c != INIT ==> s.procs[c].parent.Some? && s.procs[c].parent.value in s.table
                          && s.procs[c].parent.value in s.procs && !s.procs[s.procs[c].parent.value].zombie
    ensures var s := states[i];
            (c != INIT && s.procs[c].waiting) ==> s.procs[c].state == Blocked && !HasZombieChild(s.procs, s.table, c)
  {
    RunInv(states, steps, i);
    var s := states[i];
    var chain := ChainToInit(s.procs, c);
    assert ParentOk(s.procs, c) && ProcOk(s.procs[c]);
    if c != INIT && s.procs[c].waiting {
      WaiterHasNoZombie(s, c);
    }
  }

  /** In every run no process is reaped twice. */
  lemma ReapedOnce(states: seq<State>, steps: seq<Step>, i: nat, a: nat, b: nat)
    requires IsRun(states, steps) && i < |states| && a < b < |states[i].reaps|
    ensures states[i].reaps[a].pid != states[i].reaps[b].pid
  {
    RunInv(states, steps, i);
  }

  /** Every process reaped so far has exited, is gone, and the status handed out is the one it exited with. */
  lemma ReapedStatus(states: seq<State>, steps: seq<Step>, i: nat, a: nat)
    requires IsRun(states, steps) && i < |states| && a < |states[i].reaps|
    ensures var r := states[i].reaps[a];
            && r.pid in states[i].exits && r.pid !in states[i].procs
            && (r.status.Some? ==> r.status.value == states[i].exits[r.pid])
  {
    RunInv(states, steps, i);
    assert ReapOk(states[i], states[i].reaps[a]);
  }

  /** From `s`, process `r.pid`, a zombie off every CPU, is reaped by the parent it has. */
  ghost predicate ReapedFrom(s: State, step: Step, r: Reap) {
    && step.Wait? && step.pid == r.parent && (r.status.Some? <==> step.wanted)
    && Reapable(s.procs, r.pid, r.parent)
  }

  /** Only a wait adds a reap, of a child of the waiting process. */
  lemma ReapStep(s: State, step: Step, s': State)
    requires Next(s, step, s')
    ensures s'.reaps == s.reaps || (|s'.reaps| == |s.reaps| + 1 && s'.reaps[..|s.reaps|] == s.reaps
                                    && ReapedFrom(s, step, s'.reaps[|s.reaps|]))
  {
    if step.Wait? {
      var i := FirstReapable(s.procs, s.table, step.pid, 0);
      if i < |s.table| && s.table[i] in s.procs {
        assert Reapable(s.procs, s.table[i], step.pid);
      }
    }
  }

  /** In every run each reap was made by the parent its process had at that moment. */
  lemma {:induction false} ReapedByParent(states: seq<State>, steps: seq<Step>, i: nat, a: nat) returns (j: nat)
    requires IsRun(states, steps) && i < |states| && a < |states[i].reaps|
    ensures j < i && |states[j].reaps| == a && ReapedFrom(states[j], steps[j], states[i].reaps[a])
  {
    ReapStep(states[i - 1], steps[i - 1], states[i]);
    if a < |states[i - 1].reaps| {
      assert states[i].reaps[a] == states[i - 1].reaps[a];
      j := ReapedByParent(states, steps, i - 1, a);
    } else {
      j := i - 1;
    }
  }

  /** An exit status is never overwritten. */
  lemma ExitIsFinal(s: State, step: Step, s': State, c: nat)
    requires Inv(s) && Next(s, step, s') && c in s.exits
    requires c in s.procs ==> s.procs[c].zombie
    ensures c in s'.exits && s'.exits[c] == s.exits[c]
  {
    if step.Exit? {
      assert ProcOk(s.procs[step.pid]);
    }
  }

  /** A zombie stays one, blocked, until it is reaped; it is never made runnable again. */
  lemma ZombieStays(s: State, step: Step, s': State, z: nat)
    requires ProcsOk(s.procs) && Next(s, step, s') && z in s.procs && s.procs[z].zombie && z < s.next
    ensures z in s'.procs ==> s'.procs[z].zombie && s'.procs[z].state == Blocked && s'.procs[z].exitStatus == s.procs[z].exitStatus
  {
    assert ProcOk(s.procs[z]);
    if step.Exit? {
      ExitedAt(s.procs, step.pid, step.status, z);
    }
  }

  /** The exact condition for init: an exit leaves init blocked in wait beside a zombie child iff the
      exiting process had a zombie child itself and was not a child of init. */
  lemma InitMissesZombie(s: State, p: nat, status: int, s': State)
    requires Inv(s) && Next(s, Exit(p, status), s')
    requires s.procs[INIT].waiting && !HasZombieChild(s.procs, s.table, INIT)
    ensures INIT in s'.procs
    ensures s'.procs[INIT].waiting && HasZombieChild(s'.procs, s'.table, INIT)
            <==> s.procs[p].parent != Some(INIT) && HasZombieChild(s.procs, s.table, p)
  {
    ExitedAt(s.procs, p, status, INIT);
    ExitedAt(s.procs, p, status, p);
    assert ParentOk(s.procs, p);
    forall i | 0 <= i < |s.table|
      ensures IsZombieChild(s'.procs, s'.table[i], INIT) <==>
                IsZombieChild(s.procs, s.table[i], p) || IsZombieChild(s.procs, s.table[i], INIT)
                || (s.table[i] == p && s.procs[p].parent == Some(INIT))
    {
      ExitedAt(s.procs, p, status, s.table[i]);
    }
  }

  /** Processes 1 to 4, each the parent of the next; `four` and `one` and `three` vary. */
  function Four(one: Proc, three: Proc, four: Proc): Procs {
    map[1 := one, 2 := Fresh(Some(1)), 3 := three, 4 := four]
  }

  function Dead(proc: Proc): Proc {
    proc.(zombie := true, state := Blocked)
  }

  function InWaitCall(proc: Proc): Proc {
    proc.(waiting := true, state := Blocked, rewound := InWait)
  }

  function Example(k: nat): State
    requires k <= 6
  {
    var one, three, four := Fresh(None), Fresh(Some(2)), Fresh(Some(3));
    if k == 0 then State(map[1 := one], [1], 2, map[], [])
    else if k == 1 then State(map[1 := one, 2 := Fresh(Some(1))], [1, 2], 3, map[], [])
    else if k == 2 then State(map[1 := one, 2 := Fresh(Some(1)), 3 := three], [1, 2, 3], 4, map[], [])
    else if k == 3 then State(Four(one, three, four), [1, 2, 3, 4], 5, map[], [])
    else if k == 4 then State(Four(one, three, Dead(four)), [1, 2, 3, 4], 5, map[4 := 0], [])
    else if k == 5 then State(Four(InWaitCall(one), three, Dead(four)), [1, 2, 3, 4], 5, map[4 := 0], [])
    else State(Four(InWaitCall(one), Dead(three), Dead(Fresh(Some(1)))), [1, 2, 3, 4], 5, map[4 := 0, 3 := 0], [])
  }

  function ExampleStep(k: nat): Step
    requires k < 6
  {
    if k < 3 then Fork(k + 1) else if k == 3 then Exit(4, 0) else if k == 4 then Wait(1, true) else Exit(3, 0)
  }

  lemma ExampleForks(k: nat)
    requires k < 3
    ensures Next(Example(k), ExampleStep(k), Example(k + 1))
  {
  }

  lemma ExampleExits(k: nat)
    requires k == 3 || k == 5
    ensures Next(Example(k), ExampleStep(k), Example(k + 1))
  {
    assert Example(k + 1).procs == Exited(Example(k).procs, ExampleStep(k).pid, 0);
  }

  lemma ExampleWaits()
    ensures Next(Example(4), ExampleStep(4), Example(5))
  {
    var s := Example(4);
    BlocksInWait(s.procs);
    assert IsChild(s.procs, s.table[1], 1);
    assert Example(5).procs == s.procs[1 := InWaitCall(Fresh(None))];
  }

  /** Such a run exists: 1 forks 2, 2 forks 3, 3 forks 4, 4 exits, 1 waits and blocks, 3 exits. */
  lemma InitCanMissZombie() returns (states: seq<State>, steps: seq<Step>)
    ensures IsRun(states, steps)
    ensures var s := states[|states| - 1];
            INIT in s.procs && s.procs[INIT].waiting && HasZombieChild(s.procs, s.table, INIT)
  {
    states := seq(7, k requires 0 <= k < 7 => Example(k));
    steps := seq(6, k requires 0 <= k < 6 => ExampleStep(k));
    forall k | 0 <= k < |steps| ensures Next(states[k], steps[k], states[k + 1]) {
      if k < 3 {
        ExampleForks(k);
      } else if k == 4 {
        ExampleWaits();
      } else {
        ExampleExits(k);
      }
    }
    var s := Example(6);
    assert IsZombieChild(s.procs, s.table[3], INIT);
  }

  lemma BlocksInWait(procs: Procs)
    requires forall c :: c == 1 || c == 2 || c == 3 || c == 4 ==> c in procs && !IsZombieChild(procs, c, 1)
    ensures FirstReapable(procs, [1, 2, 3, 4], 1, 0) == 4 && !HasZombieChild(procs, [1, 2, 3, 4], 1)
  {
    var t := [1, 2, 3, 4];
    assert forall i :: 0 <= i < |t| ==> t[i] == 1 || t[i] == 2 || t[i] == 3 || t[i] == 4;
  }

  /** No other step leaves init blocked in wait beside a zombie child: only an exit does. */
  lemma OnlyExitMisses(s: State, step: Step, s': State)
    requires Inv(s) && Next(s, step, s') && !step.Exit?
    requires !(s.procs[INIT].waiting && HasZombieChild(s.procs, s.table, INIT))
    ensures INIT in s'.procs && !(s'.procs[INIT].waiting && HasZombieChild(s'.procs, s'.table, INIT))
  {
    StepInv(s, step, s');
    forall i | 0 <= i < |s'.table| && IsZombieChild(s'.procs, s'.table[i], INIT)
      ensures s'.table[i] in s.procs && IsZombieChild(s.procs, s'.table[i], INIT)
    {
      OlderChild(s, step, s', s'.table[i]);
    }
    if !HasZombieChild(s.procs, s.table, INIT) {
      NoZombieChild(s, INIT);
    } else {
      WaitsSince(s, step, s');
    }
  }

  /** A zombie child of init after a step other than an exit was one before it. */
  lemma OlderChild(s: State, step: Step, s': State, c: nat)
    requires Next(s, step, s') && !step.Exit? && IsZombieChild(s'.procs, c, INIT)
    ensures IsZombieChild(s.procs, c, INIT)
  {
  }

  /** Init does not begin to wait while it has a zombie child. */
  lemma WaitsSince(s: State, step: Step, s': State)
    requires Inv(s) && Next(s, step, s') && !step.Exit? && HasZombieChild(s.procs, s.table, INIT) && !s.procs[INIT].waiting
    requires INIT in s'.procs
    ensures !s'.procs[INIT].waiting
  {
  }

  // ------------------------------------------------------------------ sleeping

  /** What a tick at time `now` makes of a process: a blocked sleeper stays blocked iff its deadline is still to
      come, and nothing else changes. */
  predicate TicksTo(proc: Proc, now: nat, proc': Proc) {
    && proc' == proc.(state := proc'.state)
    && (proc.sleeping && proc.state == Blocked ==> (proc'.state == Blocked <==> now < proc.wakeAt))
    && (!(proc.sleeping && proc.state == Blocked) ==> proc' == proc)
  }

  lemma TickWakes(s: State, now: nat, s': State)
    requires Next(s, Tick(now), s')
    ensures s' == s.(procs := s'.procs) && s'.procs.Keys == s.procs.Keys
    ensures forall c :: c in s.procs ==> TicksTo(s.procs[c], now, s'.procs[c])
  {
  }

  /** `p` is inside a sleep until `w`. */
  predicate Sleeps(s: State, p: nat, w: nat) {
    p in s.procs && s.procs[p].sleeping && s.procs[p].wakeAt == w
  }

  predicate IsSleepOf(step: Step, p: nat) {
    step.Sleep? && step.pid == p
  }

  /** A tick that wakes whoever sleeps until `w`. */
  predicate Wakes(step: Step, w: nat) {
    step.Tick? && step.now >= w
  }

  /** Between its calls a sleeper changes only by ticks: it can run iff it could before or its deadline has come. */
  lemma SleepStays(s: State, step: Step, s': State, p: nat, w: nat)
    requires Inv(s) && Next(s, step, s') && Sleeps(s, p, w) && !IsSleepOf(step, p)
    ensures Sleeps(s', p, w)
    ensures s'.procs[p].state == Runnable <==> s.procs[p].state == Runnable || Wakes(step, w)
  {
    assert ProcOk(s.procs[p]);
    match step
    case Exit(q, status) => ExitedAt(s.procs, q, status, p);
    case Tick(now) => TickWakes(s, now, s');
    case _ =>
  }

  /** In every run, after `p` has begun a sleep until `w` at step `a` and before its next sleep call: it can run
      iff some tick at `w` or later has come. */
  lemma {:induction false} RunsIffWoken(states: seq<State>, steps: seq<Step>, p: nat, w: nat, a: nat, b: nat)
    requires IsRun(states, steps) && a < b <= |steps| && IsSleepOf(steps[a], p) && steps[a].wakeAt == w
    requires p in states[a].procs && !states[a].procs[p].sleeping
    requires forall k :: a < k < b ==> !IsSleepOf(steps[k], p)
    ensures Sleeps(states[b], p, w)
    ensures states[b].procs[p].state == Runnable <==> exists k :: a < k < b && Wakes(steps[k], w)
    decreases b
  {
    if b > a + 1 {
      RunsIffWoken(states, steps, p, w, a, b - 1);
      RunInv(states, steps, b - 1);
      SleepStays(states[b - 1], steps[b - 1], states[b], p, w);
    }
  }

  /** The time at which a step reads the clock. */
  function TimeOf(step: Step): Option<nat> {
    match step
    case Sleep(_, _, now) => Some(now)
    case Tick(now) => Some(now)
    case _ => None
  }

  /** The clock does not go backwards. */
  ghost predicate ClockRuns(steps: seq<Step>) {
    forall i, j :: 0 <= i < j < |steps| && TimeOf(steps[i]).Some? && TimeOf(steps[j]).Some? ==>
      TimeOf(steps[i]).value <= TimeOf(steps[j]).value
  }

  /** In every run, for a sleep until `w` begun at step `a` and the next sleep call of `p`, at step `b`: the call is
      not made before a tick at `w` or later, it returns iff its own time is not before `w`, and with a clock that
      does not go backwards it does return. */
  lemma SleepReturns(states: seq<State>, steps: seq<Step>, p: nat, w: nat, a: nat, b: nat)
    requires IsRun(states, steps) && a < b < |steps| && IsSleepOf(steps[a], p) && steps[a].wakeAt == w && IsSleepOf(steps[b], p)
    requires p in states[a].procs && !states[a].procs[p].sleeping
    requires forall k :: a < k < b ==> !IsSleepOf(steps[k], p)
    ensures p in states[b + 1].procs && (states[b + 1].procs[p].sleeping <==> steps[b].now < w)
    ensures exists k :: a < k < b && Wakes(steps[k], w)
    ensures ClockRuns(steps) ==> !states[b + 1].procs[p].sleeping && states[b + 1].procs[p].state == Runnable
  {
    RunsIffWoken(states, steps, p, w, a, b);
    assert Next(states[b], steps[b], states[b + 1]);
    var k :| a < k < b && Wakes(steps[k], w);
    assert TimeOf(steps[k]).Some? && TimeOf(steps[b]).Some?;
  }

  // ------------------------------------------------------------------ what a wait does

  ghost predicate SomeChild(procs: Procs, p: nat) {
    exists c :: IsChild(procs, c, p)
  }

  ghost predicate SomeZombie(procs: Procs, p: nat) {
    exists c :: IsZombieChild(procs, c, p)
  }

  ghost predicate SomeReapable(procs: Procs, p: nat) {
    exists c :: Reapable(procs, c, p)
  }

  lemma InTable(s: State, p: nat)
    requires TableOk(s)
    ensures HasChild(s.procs, s.table, p) <==> SomeChild(s.procs, p)
    ensures HasZombieChild(s.procs, s.table, p) <==> SomeZombie(s.procs, p)
    ensures FirstReapable(s.procs, s.table, p, 0) < |s.table| <==> SomeReapable(s.procs, p)
  {
    forall c | IsChild(s.procs, c, p) ensures HasChild(s.procs, s.table, p) {
      var i :| 0 <= i < |s.table| && s.table[i] == c;
      assert IsChild(s.procs, s.table[i], p);
    }
    forall c | IsZombieChild(s.procs, c, p) ensures HasZombieChild(s.procs, s.table, p) {
      var i :| 0 <= i < |s.table| && s.table[i] == c;
      assert IsZombieChild(s.procs, s.table[i], p);
    }
    forall c | Reapable(s.procs, c, p) ensures FirstReapable(s.procs, s.table, p, 0) < |s.table| {
      var i :| 0 <= i < |s.table| && s.table[i] == c;
      assert Reapable(s.procs, s.table[i], p);
    }
  }

  /** A wait reaps iff some child can be reaped, is called again iff there are children but none can be, and
      sleeps until then iff none of them has even exited. */
  lemma WaitOutcome(s: State, p: nat, wanted: bool, s': State)
    requires Inv(s) && Next(s, Wait(p, wanted), s')
    ensures p in s'.procs
    ensures |s'.reaps| == |s.reaps| + 1 <==> SomeReapable(s.procs, p)
    ensures s'.procs[p].rewound == InWait <==> SomeChild(s.procs, p) && !SomeReapable(s.procs, p)
    ensures s'.procs[p].state == Blocked <==> SomeChild(s.procs, p) && !SomeZombie(s.procs, p)
  {
    InTable(s, p);
    assert ParentOk(s.procs, p);
    assert forall c :: Reapable(s.procs, c, p) ==> IsZombieChild(s.procs, c, p);
    assert forall c :: IsZombieChild(s.procs, c, p) ==> IsChild(s.procs, c, p);
  }

  /** The table entry of a reaped process is taken by the last one; no other moves. */
  lemma ReapMovesLast(s: State, p: nat, wanted: bool, s': State)
    requires Inv(s) && Next(s, Wait(p, wanted), s') && |s'.reaps| == |s.reaps| + 1
    ensures exists i :: 0 <= i < |s.table| == |s'.table| + 1 && s.table[i] == s'.reaps[|s.reaps|].pid && MovesLast(s.table, i, s'.table)
  {
    InTable(s, p);
    var i := FirstReapable(s.procs, s.table, p, 0);
    assert MovesLast(s.table, i, s'.table);
  }

  ghost predicate MovesLast(table: seq<nat>, i: nat, table': seq<nat>) {
    && i < |table| == |table'| + 1
    && forall j :: 0 <= j < |table'| ==> table'[j] == if j == i then table[|table| - 1] else table[j]
  }

  // ------------------------------------------------------------------ whose child a process is

  /** A step hands a process to init iff its parent exits. */
  lemma ParentStep(s: State, step: Step, s': State, c: nat)
    requires Inv(s) && Next(s, step, s') && c in s.procs && c in s'.procs
    ensures s'.procs[c].parent ==
              if step.Exit? && s.procs[c].parent == Some(step.pid) && c != step.pid then Some(INIT) else s.procs[c].parent
  {
    match step
    case Exit(q, status) => ExitedAt(s.procs, q, status, c);
    case _ =>
  }

  /** Only what was forked has exited, and it is a zombie or gone. */
  ghost predicate ExitsOk(s: State) {
    forall c :: c in s.exits ==> c < s.next && (c in s.procs ==> s.procs[c].zombie)
  }

  lemma ExitsStep(s: State, step: Step, s': State)
    requires Inv(s) && ExitsOk(s) && Next(s, step, s')
    ensures ExitsOk(s') && s.next <= s'.next
    ensures forall c :: c in s'.procs && c < s.next ==> c in s.procs
    ensures s'.exits == if step.Exit? then s.exits[step.pid := step.status] else s.exits
  {
    forall c | c in s'.exits && c in s'.procs ensures s'.procs[c].zombie {
      if step.Exit? {
        ExitedAt(s.procs, step.pid, step.status, c);
      } else {
        assert ProcOk(s.procs[c]);
      }
    }
  }

  lemma {:induction false} RunExits(states: seq<State>, steps: seq<Step>, i: nat)
    requires IsRun(states, steps) && i < |states|
    ensures ExitsOk(states[i])
  {
    if i > 0 {
      RunExits(states, steps, i - 1);
      RunInv(states, steps, i - 1);
      ExitsStep(states[i - 1], steps[i - 1], states[i]);
    }
  }

  /** One step of the law below. */
  lemma ForkedStep(s: State, step: Step, s': State, p: nat, c: nat)
    requires Inv(s) && ExitsOk(s) && Next(s, step, s') && p < c < s.next && ParentIs(s, c, p)
    ensures ParentIs(s', c, p) && c < s'.next
  {
    ExitsStep(s, step, s');
    if c in s'.procs {
      ParentStep(s, step, s', c);
      if step.Exit? {
        assert ProcOk(s.procs[step.pid]);
      }
    }
  }

  /** While `c` is there its parent is `p`, or init once `p` has exited. */
  predicate ParentIs(s: State, c: nat, p: nat) {
    c in s.procs ==> s.procs[c].parent == Some(if p in s.exits then INIT else p)
  }

  lemma ForkStarts(s: State, step: Step, s': State, p: nat)
    requires Inv(s) && ExitsOk(s) && Next(s, step, s') && step == Fork(p)
    ensures p < s.next < s'.next && s.next in s'.procs && ParentIs(s', s.next, p)
  {
    assert ProcOk(s.procs[p]);
  }

  lemma RunStep(states: seq<State>, steps: seq<Step>, i: nat)
    requires IsRun(states, steps) && i < |steps|
    ensures Inv(states[i]) && ExitsOk(states[i]) && Next(states[i], steps[i], states[i + 1])
  {
    RunInv(states, steps, i);
    RunExits(states, steps, i);
  }

  lemma ForkedFirst(states: seq<State>, steps: seq<Step>, p: nat, i: nat)
    requires IsRun(states, steps) && i < |steps| && steps[i] == Fork(p)
    ensures p < states[i].next < states[i + 1].next && states[i].next in states[i + 1].procs
    ensures ParentIs(states[i + 1], states[i].next, p)
  {
    RunStep(states, steps, i);
    ForkStarts(states[i], steps[i], states[i + 1], p);
  }

  lemma ForkedNext(states: seq<State>, steps: seq<Step>, p: nat, c: nat, j: nat)
    requires IsRun(states, steps) && j < |steps| && p < c < states[j].next && ParentIs(states[j], c, p)
    ensures c < states[j + 1].next && ParentIs(states[j + 1], c, p)
  {
    RunStep(states, steps, j);
    ForkedStep(states[j], steps[j], states[j + 1], p, c);
  }

  /** In every run the parent of a forked process is the one that forked it, until that exits, and init after. */
  lemma {:induction false} ForkedBy(states: seq<State>, steps: seq<Step>, p: nat, i: nat, j: nat)
    requires IsRun(states, steps) && i <= j < |steps| && steps[i] == Fork(p)
    ensures p < states[i].next < states[j + 1].next && ParentIs(states[j + 1], states[i].next, p)
    ensures j == i ==> states[i].next in states[j + 1].procs
    decreases j
  {
    if j == i {
      ForkedFirst(states, steps, p, i);
    } else {
      ForkedBy(states, steps, p, i, j - 1);
      ForkedNext(states, steps, p, states[i].next, j);
    }
  }
}
