/** The process table in place: the loops of `reparent_children`, `try_reap` and `uproc_tick` and the
system calls around them (`oslabs/kernel/src/uproc.c`), each proved to be a step of `Processes`.
 */
module ProcessTable {
  import opened Common
  import opened Processes

  /** What `try_reap` tells the wait system call. */
  datatype WaitResult = Reaped(pid: nat, status: int) | NoChild | Block | Retry

  class Table {
    var procs: Procs
    var table: seq<nat>
    var next: nat
    ghost var exits: map<nat, int>
    ghost var reaps: seq<Reap>

    ghost function View(): State
      reads this
    {
      State(procs, table, next, exits, reaps)
    }

    /** `uproc_init`: init is spawned. */
    constructor ()
      ensures Processes.Init(View()) && Inv(View())
    {
      procs := map[INIT := Fresh(None)];
      table := [INIT];
      next := INIT + 1;
      exits := map[];
      reaps := [];
      new;
      RunInv([View()], [], 0);
    }

    /** `sys_fork`, as far as the process table is concerned; a full table is a panic. */
    method Fork(p: nat) returns (child: nat)
      requires Inv(View()) && Calls(View(), p, No) && |table| < MAXPROC
      modifies this`procs, this`table, this`next
      ensures Next(old(View()), Step.Fork(p), View()) && Inv(View()) && child == old(next)
    {
      ghost var was := View();
      child := next;
      next := next + 1;
      procs := procs[child := Fresh(Some(p))];
      table := table + [child];
      StepInv(was, Step.Fork(p), View());
    }

    /** `reparent_children`. */
    method ReparentChildren(dead: nat)
      requires forall c :: c in table <==> c in procs
      modifies this`procs
      ensures procs == Reparent(old(procs), dead)
    {
      var i := 0;
      while i < |table|
        invariant i <= |table| && procs.Keys == old(procs).Keys
        invariant forall c :: c in procs ==>
                    procs[c] == if c in table[..i] then Reparent(old(procs), dead)[c] else old(procs)[c]
      {
        var c := table[i];
        if procs[c].parent == Some(dead) {
          procs := procs[c := procs[c].(parent := Some(INIT))];
        }
        i := i + 1;
      }
      assert table[..i] == table;
    }

    /** Wake the parent of `p` if it is blocked in wait. */
    method WakeParent(p: nat)
      requires p in procs
      modifies this`procs
      ensures procs == WakeWaiter(old(procs), old(procs)[p].parent)
    {
      var parent := procs[p].parent;
      if parent.Some? && parent.value in procs && procs[parent.value].waiting {
        procs := procs[parent.value := procs[parent.value].(waiting := false)];
        procs := procs[parent.value := procs[parent.value].(state := Runnable)];
      }
    }

    /** The assignments of `sys_exit`. */
    method MarkExited(p: nat, status: int)
      requires p in procs && forall c :: c in table <==> c in procs
      modifies this`procs
      ensures procs == Exited(old(procs), p, status)
    {
      procs := procs[p := procs[p].(exitStatus := status, zombie := true)];
      ReparentChildren(p);
      WakeParent(p);
      procs := procs[p := procs[p].(state := Blocked)];
    }

    /** `sys_exit` of a process other than init (whose exit halts the machine). */
    method Exit(p: nat, status: int)
      requires Inv(View()) && Calls(View(), p, No) && p != INIT
      modifies this`procs, this`exits
      ensures Next(old(View()), Step.Exit(p, status), View()) && Inv(View())
    {
      ghost var was := View();
      MarkExited(p, status);
      exits := exits[p := status];
      StepInv(was, Step.Exit(p, status), View());
    }

    /** `try_reap`: the first exited child that is off every CPU, if there is one. */
    method TryReap(p: nat) returns (r: WaitResult)
      requires forall k :: 0 <= k < |table| ==> table[k] in procs
      modifies this`procs, this`table
      ensures var i := FirstReapable(old(procs), old(table), p, 0);
              if i < |old(table)| then
                && r == Reaped(old(table)[i], old(procs)[old(table)[i]].exitStatus)
                && procs == old(procs) - {old(table)[i]} && table == SwapRemove(old(table), i)
              else
                && procs == old(procs) && table == old(table)
                && r == if HasZombieChild(procs, table, p) then Retry
                        else if HasChild(procs, table, p) then Block else NoChild
    {
      var haveChild, pending := false, false;
      var i := 0;
      while i < |table|
        invariant i <= |table| && procs == old(procs) && table == old(table)
        invariant FirstReapable(procs, table, p, 0) == FirstReapable(procs, table, p, i)
        invariant haveChild <==> exists k :: 0 <= k < i && IsChild(procs, table[k], p)
        invariant pending <==> exists k :: 0 <= k < i && IsZombieChild(procs, table[k], p)
      {
        var c := table[i];
        if procs[c].parent == Some(p) {
          haveChild := true;
          if procs[c].zombie && !procs[c].onCpu {
            r := Reaped(c, procs[c].exitStatus);
            table := table[i := table[|table| - 1]];
            table := table[..|table| - 1];
            procs := procs - {c};
            return;
          }
          if procs[c].zombie {
            pending := true;
          }
        }
        i := i + 1;
      }
      r := if pending then Retry else if haveChild then Block else NoChild;
    }

    /** What the wait system call makes of the outcome. */
    method FinishWait(p: nat, outcome: WaitResult) returns (r: Option<WaitResult>)
      requires p in procs
      modifies this`procs
      ensures r == if outcome.Block? || outcome.Retry? then None else Some(outcome)
      ensures procs == old(procs)[p := match outcome
                                       case Block => old(procs)[p].(waiting := true, state := Blocked, rewound := InWait)
                                       case Retry => old(procs)[p].(rewound := InWait)
                                       case _ => old(procs)[p].(rewound := No)]
    {
      match outcome
      case Block =>
        procs := procs[p := procs[p].(waiting := true)];
        procs := procs[p := procs[p].(state := Blocked)];
        procs := procs[p := procs[p].(rewound := InWait)];
        r := None;
      case Retry =>
        procs := procs[p := procs[p].(rewound := InWait)];
        r := None;
      case _ =>
        procs := procs[p := procs[p].(rewound := No)];
        r := Some(outcome);
    }

    /** The wait system call, without its invariant. */
    method TryWait(p: nat, wanted: bool) returns (r: Option<WaitResult>)
      requires p in procs && !IsChild(procs, p, p) && forall k :: 0 <= k < |table| ==> table[k] in procs
      modifies this`procs, this`table, this`reaps
      ensures WaitStep(old(View()), p, wanted, View())
      ensures WaitAnswer(old(procs), old(table), p, r)
      ensures p in procs && (r.None? <==> procs[p].rewound == InWait)
      ensures reaps == if r.Some? && r.value.Reaped?
                       then old(reaps) + [Reap(r.value.pid, p, if wanted then Some(r.value.status) else None)] else old(reaps)
    {
      AnyChild(procs, table, p);
      var outcome := TryReap(p);
      r := FinishWait(p, outcome);
      if outcome.Reaped? {
        reaps := reaps + [Reap(outcome.pid, p, if wanted then Some(outcome.status) else None)];
      }
    }

    /** The wait system call; the result is `None` when the call is rewound. */
    method Wait(p: nat, wanted: bool) returns (r: Option<WaitResult>)
      requires Inv(View()) && Calls(View(), p, InWait)
      modifies this`procs, this`table, this`reaps
      ensures Next(old(View()), Step.Wait(p, wanted), View()) && Inv(View())
      ensures WaitAnswer(old(procs), old(table), p, r)
      ensures p in procs && (r.None? <==> procs[p].rewound == InWait)
      ensures reaps == if r.Some? && r.value.Reaped?
                       then old(reaps) + [Reap(r.value.pid, p, if wanted then Some(r.value.status) else None)] else old(reaps)
    {
      ghost var was := View();
      ChildIsOther(procs, p);
      r := TryWait(p, wanted);
      StepInv(was, Step.Wait(p, wanted), View());
    }

    /** The sleep system call: `true` once the deadline has passed. */
    method Sleep(p: nat, wakeAt: nat, now: nat) returns (done: bool)
      requires Inv(View()) && Calls(View(), p, InSleep)
      modifies this`procs
      ensures Next(old(View()), Step.Sleep(p, wakeAt, now), View()) && Inv(View())
      ensures done <==> old(procs[p].sleeping) && now >= old(procs[p].wakeAt)
      ensures p in procs && procs[p].sleeping == !done && (!done ==> procs[p].state == Blocked)
      ensures procs[p].wakeAt == if old(procs[p].sleeping) then old(procs[p].wakeAt) else wakeAt
    {
      ghost var was := View();
      if !procs[p].sleeping {
        procs := procs[p := procs[p].(sleeping := true, wakeAt := wakeAt, state := Blocked, rewound := InSleep)];
        done := false;
      } else if now >= procs[p].wakeAt {
        procs := procs[p := procs[p].(sleeping := false, rewound := No)];
        done := true;
      } else {
        procs := procs[p := procs[p].(state := Blocked, rewound := InSleep)];
        done := false;
      }
      StepInv(was, Step.Sleep(p, wakeAt, now), View());
    }

    /** The loop of `uproc_tick`. */
    method WakeSleepers(now: nat)
      requires forall c :: c in table <==> c in procs
      modifies this`procs
      ensures procs == Ticked(old(procs), now)
    {
      var i := 0;
      while i < |table|
        invariant i <= |table| && procs.Keys == old(procs).Keys
        invariant forall c :: c in procs ==>
                    procs[c] == if c in table[..i] then Ticked(old(procs), now)[c] else old(procs)[c]
      {
        var c := table[i];
        if procs[c].sleeping && procs[c].state == Blocked && now >= procs[c].wakeAt {
          procs := procs[c := procs[c].(state := Runnable)];
        }
        i := i + 1;
      }
      assert table[..i] == table;
    }

    /** `uproc_tick`. */
    method Tick(now: nat)
      requires Inv(View())
      modifies this`procs
      ensures Next(old(View()), Step.Tick(now), View()) && Inv(View())
      ensures procs.Keys == old(procs).Keys && forall c :: c in procs ==> TicksTo(old(procs)[c], now, procs[c])
    {
      ghost var was := View();
      WakeSleepers(now);
      TickWakes(was, now, View());
      StepInv(was, Step.Tick(now), View());
    }
  }

  lemma ChildIsOther(procs: Procs, p: nat)
    requires ProcsOk(procs) && p in procs
    ensures !IsChild(procs, p, p)
  {
    assert ParentOk(procs, p);
  }

  /** What wait answers: the first reapable child with its status; nothing yet, if there are children but none
      can be reaped; or that there are none. */
  ghost predicate WaitAnswer(procs: Procs, table: seq<nat>, p: nat, r: Option<WaitResult>) {
    var i := FirstReapable(procs, table, p, 0);
    if i < |table| && table[i] in procs then r == Some(Reaped(table[i], procs[table[i]].exitStatus))
    else if HasChild(procs, table, p) then r == None
    else r == Some(NoChild)
  }

  lemma AnyChild(procs: Procs, table: seq<nat>, p: nat)
    ensures HasZombieChild(procs, table, p) ==> HasChild(procs, table, p)
  {
    if i :| 0 <= i < |table| && IsZombieChild(procs, table[i], p) {
      assert IsChild(procs, table[i], p);
    }
  }
}
