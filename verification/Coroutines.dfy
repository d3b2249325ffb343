/** The coroutine ring of `minilabs/libco/co.c`.

A step is what the running coroutine does up to its next switch: start a coroutine, yield, begin a
wait, look at the awaited coroutine (collecting it or yielding), or return from its function.
`saved` holds the coroutines whose `setjmp` context is valid: it is saved by a yield and used up by the
`longjmp` that resumes it.  Coroutine 0 is `main`, which never returns from its function.
 */
module Coroutines {
  import opened Common

  const MAIN: nat := 0
  const MAX_CO: nat := 128

  datatype Status = New | Running | Dead

  datatype State = State(
    ring: seq<nat>,              // co_pool[..co_count]
    status: map<nat, Status>,
    current: nat,
    saved: set<nat>,
    waits: map<nat, nat>,        // who is inside co_wait, and for whom
    waited: set<nat>,            // everything co_wait was ever called for
    started: set<nat>,
    collected: set<nat>)

  predicate Live(status: map<nat, Status>, c: nat) {
    c in status && status[c] != Dead
  }

  // ------------------------------------------------------------------ choosing the next coroutine

  /** The index of `c`, or 0 if absent: the first loop of `schedule`. */
  function Position(ring: seq<nat>, c: nat): (i: nat)
    ensures c in ring ==> i < |ring| && ring[i] == c
    ensures i <= |ring|
  {
    if c in ring then FirstAt(ring, c) else 0
  }

  function FirstAt(ring: seq<nat>, c: nat): (i: nat)
    requires c in ring
    ensures i < |ring| && ring[i] == c
  {
    if ring[0] == c then 0 else 1 + FirstAt(ring[1..], c)
  }

  /** `(start + off) % n`, for `off` up to `n`. */
  function Around(start: nat, off: nat, n: nat): nat
    requires start < n && off <= n
  {
    if start + off < n then start + off else start + off - n
  }

  /** The first offset from `off` on with a live coroutine; past the ring if there is none. */
  function NextOffset(ring: seq<nat>, status: map<nat, Status>, start: nat, off: nat): (k: nat)
    requires start < |ring| && 1 <= off <= |ring| + 1
    ensures off <= k <= |ring| + 1
    ensures k <= |ring| ==> Live(status, ring[Around(start, k, |ring|)])
    ensures forall i :: off <= i < k ==> !Live(status, ring[Around(start, i, |ring|)])
    decreases |ring| + 1 - off
  {
    if off == |ring| + 1 then off
    else if Live(status, ring[Around(start, off, |ring|)]) then off
    else NextOffset(ring, status, start, off + 1)
  }

  /** The coroutine `schedule` switches to; `None` is the deadlock exit. */
  function Chosen(s: State): Option<nat>
    requires s.ring != []
  {
    var start := Position(s.ring, s.current);
    if start >= |s.ring| then None
    else
      var k := NextOffset(s.ring, s.status, start, 1);
      if k <= |s.ring| then Some(s.ring[Around(start, k, |s.ring|)])
      else if Live(s.status, s.current) then Some(s.current)
      else None
  }

  /** Enter or resume `next`. */
  function SwitchTo(s: State, next: nat): State {
    s.(current := next, status := s.status[next := Running], saved := s.saved - {next})
  }

  // ------------------------------------------------------------------ steps

  datatype Step = Start(id: nat) | Yield | BeginWait(id: nat) | WaitTurn | Return

  function Save(s: State): State {
    s.(saved := s.saved + {s.current})
  }

  function Remove(ring: seq<nat>, c: nat): seq<nat> {
    if c in ring then ring[..FirstAt(ring, c)] + ring[FirstAt(ring, c) + 1..] else ring
  }

  function Collect(s: State, c: nat): State {
    s.(ring := Remove(s.ring, c), status := s.status - {c}, collected := s.collected + {c},
       saved := s.saved - {c}, waits := s.waits - {s.current})
  }

  /** A switch away from the current coroutine. */
  ghost predicate Switches(s: State, s': State) {
    s.ring != [] && Chosen(s).Some? && s' == SwitchTo(s, Chosen(s).value)
  }

  ghost predicate Next(s: State, step: Step, s': State) {
    match step
    case Start(id) =>
      && s.current !in s.waits && id !in s.started && id != MAIN && |s.ring| < MAX_CO
      && s' == s.(ring := s.ring + [id], status := s.status[id := New], started := s.started + {id})
    case Yield => s.current !in s.waits && Switches(Save(s), s')
    case BeginWait(id) =>
      && s.current !in s.waits && id in s.started && id !in s.waited && id != s.current
      && s' == s.(waits := s.waits[s.current := id], waited := s.waited + {id})
    case WaitTurn =>
      && s.current in s.waits && s.waits[s.current] in s.status
      && var id := s.waits[s.current];
         if s.status[id] == Dead then s' == Collect(s, id) else Switches(Save(s), s')
    case Return =>
      s.current !in s.waits && s.current != MAIN && Switches(s.(status := s.status[s.current := Dead]), s')
  }

  ghost predicate Init(s: State) {
    s == State([MAIN], map[MAIN := Running], MAIN, {}, map[], {}, {}, {})
  }

  // ------------------------------------------------------------------ invariant

  ghost predicate NoRepeats(ring: seq<nat>) {
    forall i, j :: 0 <= i < j < |ring| ==> ring[i] != ring[j]
  }

  /** The ring holds `main` and every coroutine started and not yet collected, each once. */
  ghost predicate RingOk(s: State) {
    && NoRepeats(s.ring)
    && (forall c :: c in s.ring <==> c == MAIN || (c in s.started && c !in s.collected))
    && (forall c :: c in s.status <==> c in s.ring)
    && MAIN !in s.started && s.collected <= s.waited <= s.started
  }

  /** A running coroutine that is not current can be resumed; `main` is never dead. */
  ghost predicate ContextOk(s: State) {
    && s.current in s.status && s.status[s.current] == Running
    && MAIN in s.status && s.status[MAIN] == Running
    && (forall c :: c in s.status && s.status[c] == Running && c != s.current ==> c in s.saved)
    && s.current !in s.saved
    && (forall c :: c in s.saved ==> c in s.status && s.status[c] == Running)
  }

  /** Nobody but its waiter ever collects an awaited coroutine. */
  ghost predicate WaitsOk(s: State) {
    && (forall c :: c in s.waits ==> c in s.status && s.status[c] == Running && s.waits[c] in s.waited
                                     && s.waits[c] !in s.collected && s.waits[c] != c)
    && (forall c, d :: c in s.waits && d in s.waits && s.waits[c] == s.waits[d] ==> c == d)
  }

  ghost predicate Inv(s: State) {
    RingOk(s) && ContextOk(s) && WaitsOk(s)
  }

  /** The deadlock exit is unreachable: whatever the current coroutine is, `main` is there to be chosen. */
  lemma SomethingRunnable(s: State)
    requires MAIN in s.ring && s.current in s.ring && Live(s.status, MAIN)
    ensures Chosen(s).Some? && Live(s.status, Chosen(s).value) && Chosen(s).value in s.ring
  {
    var start, n := Position(s.ring, s.current), |s.ring|;
    var m := Position(s.ring, MAIN);
    var off := if m > start then m - start else m + n - start;
    assert s.ring[Around(start, off, n)] == MAIN;
  }

  /** Switching to a live coroutine from a state whose current one is saved or dead. */
  lemma SwitchInv(s: State, next: nat)
    requires RingOk(s) && WaitsOk(s) && next in s.ring && Live(s.status, next)
    requires MAIN in s.status && s.status[MAIN] == Running
    requires forall c :: c in s.status && s.status[c] == Running ==> c in s.saved
    requires forall c :: c in s.saved ==> c in s.status && s.status[c] == Running
    ensures Inv(SwitchTo(s, next))
  {
  }

  lemma YieldInv(s: State, s': State)
    requires Inv(s) && Switches(Save(s), s')
    ensures Inv(s')
  {
    SomethingRunnable(Save(s));
    SwitchInv(Save(s), Chosen(Save(s)).value);
  }

  lemma ReturnInv(s: State, s': State)
    requires Inv(s) && Next(s, Return, s')
    ensures Inv(s')
  {
    var s1 := s.(status := s.status[s.current := Dead]);
    SomethingRunnable(s1);
    SwitchInv(s1, Chosen(s1).value);
  }

  /** Where the slots of a ring go when slot `k` is taken out. */
  lemma Shifted(ring: seq<nat>, k: nat, i: nat)
    requires k < |ring| && i < |ring| && i != k
    ensures var j := if i < k then i else i - 1;
            0 <= j < |ring| - 1 && (ring[..k] + ring[k + 1..])[j] == ring[i]
  {
  }

  lemma ShiftedBack(ring: seq<nat>, k: nat, j: nat)
    requires k < |ring| && j < |ring| - 1
    ensures (ring[..k] + ring[k + 1..])[j] == ring[if j < k then j else j + 1]
  {
  }

  lemma Removed(ring: seq<nat>, c: nat, x: nat)
    requires NoRepeats(ring)
    ensures x in Remove(ring, c) <==> x in ring && x != c
  {
    if c in ring {
      var k, ring' := FirstAt(ring, c), Remove(ring, c);
      if x in ring && x != c {
        var i :| 0 <= i < |ring| && ring[i] == x;
        Shifted(ring, k, i);
      }
      if x in ring' {
        var j :| 0 <= j < |ring'| && ring'[j] == x;
        ShiftedBack(ring, k, j);
      }
    }
  }

  lemma RemovedNoRepeats(ring: seq<nat>, c: nat)
    requires NoRepeats(ring)
    ensures NoRepeats(Remove(ring, c))
  {
    if c in ring {
      var k, ring' := FirstAt(ring, c), Remove(ring, c);
      forall i, j | 0 <= i < j < |ring'| ensures ring'[i] != ring'[j] {
        ShiftedBack(ring, k, i);
        ShiftedBack(ring, k, j);
      }
    }
  }

  lemma CollectInv(s: State, c: nat)
    requires Inv(s) && s.current in s.waits && c == s.waits[s.current] && c in s.status && s.status[c] == Dead
    ensures Inv(Collect(s, c))
  {
    forall x ensures x in Remove(s.ring, c) <==> x in s.ring && x != c {
      Removed(s.ring, c, x);
    }
    RemovedNoRepeats(s.ring, c);
  }

  lemma StepInv(s: State, step: Step, s': State)
    requires Inv(s) && Next(s, step, s')
    ensures Inv(s')
  {
    match step
    case Start(id) =>
    case Yield => YieldInv(s, s');
    case BeginWait(id) =>
    case WaitTurn =>
      if s.status[s.waits[s.current]] == Dead {
        CollectInv(s, s.waits[s.current]);
      } else {
        YieldInv(s, s');
      }
    case Return => ReturnInv(s, s');
  }

  ghost predicate IsRun(states: seq<State>, steps: seq<Step>) {
    && |states| == |steps| + 1
    && Init(states[0])
    && forall i :: 0 <= i < |steps| ==> Next(states[i], steps[i], states[i + 1])
  }

  lemma {:induction false} RunInv(states: seq<State>, steps: seq<Step>, i: nat)
    requires IsRun(states, steps) && i < |states|
    ensures Inv(states[i])
  {
    if i > 0 {
      RunInv(states, steps, i - 1);
      StepInv(states[i - 1], steps[i - 1], states[i]);
    }
  }

  // ------------------------------------------------------------------ consequences

  /** In every state of every run the scheduler finds a coroutine, whether the current one yields or
      returns, and what it resumes has a saved context. */
  lemma NeverStuck(states: seq<State>, steps: seq<Step>, i: nat)
    requires IsRun(states, steps) && i < |states|
    ensures var s := Save(states[i]);
            && s.ring != [] && Chosen(s).Some? && Chosen(s).value in s.status
            && (s.status[Chosen(s).value] == Running ==> Chosen(s).value in s.saved)
    ensures states[i].current != MAIN ==>
              var s := states[i].(status := states[i].status[states[i].current := Dead]);
              && s.ring != [] && Chosen(s).Some? && Chosen(s).value in s.status
              && (s.status[Chosen(s).value] == Running ==> Chosen(s).value in s.saved)
  {
    RunInv(states, steps, i);
    SomethingRunnable(Save(states[i]));
    if states[i].current != MAIN {
      SomethingRunnable(states[i].(status := states[i].status[states[i].current := Dead]));
    }
  }

  /** What is collected is never the current coroutine, and never anything that still runs or can be
      resumed or is waited for. */
  lemma CollectedIsGone(s: State, s': State)
    requires Inv(s) && Next(s, WaitTurn, s') && s.current in s.waits && s.waits[s.current] in s.status
    requires s.status[s.waits[s.current]] == Dead
    ensures var id := s.waits[s.current];
            id != s'.current && id !in s'.ring && id !in s'.saved && id in s'.collected
            && forall c :: c in s'.waits ==> s'.waits[c] != id && c != id
  {
    Removed(s.ring, s.waits[s.current], s.waits[s.current]);
  }

  // ------------------------------------------------------------------ fairness

  /** The index that `schedule` moves to from index `i`, for a fixed ring. */
  function NextIndex(ring: seq<nat>, status: map<nat, Status>, i: nat): (k: nat)
    requires i < |ring|
    ensures k < |ring|
  {
    var off := NextOffset(ring, status, i, 1);
    if off <= |ring| then Around(i, off, |ring|) else i
  }

  /** How far ahead index `j` is, at least 1. */
  function Ahead(i: nat, j: nat, n: nat): nat
    requires i < n && j < n
  {
    if j > i then j - i else j + n - i
  }

  /** One schedule comes closer to every live coroutine ahead, and never passes it. */
  lemma Closer(ring: seq<nat>, status: map<nat, Status>, i: nat, j: nat)
    requires i < |ring| && j < |ring| && Live(status, ring[j])
    ensures var k := NextIndex(ring, status, i);
            k == j || Ahead(k, j, |ring|) < Ahead(i, j, |ring|)
  {
    var n, d := |ring|, Ahead(i, j, |ring|);
    assert Around(i, d, n) == j;
    var off := NextOffset(ring, status, i, 1);
    assert off <= d;
  }

  /** `NextIndex` is where `schedule` goes. */
  lemma ChosenIsNext(s: State)
    requires NoRepeats(s.ring) && s.current in s.ring && Chosen(s).Some?
    ensures Chosen(s).value == s.ring[NextIndex(s.ring, s.status, Position(s.ring, s.current))]
  {
  }

  /** How many turns away `c` is: the distance in the ring from the current coroutine. */
  ghost function Distance(s: State, c: nat): nat
    requires s.current in s.ring && c in s.ring
  {
    Ahead(Position(s.ring, s.current), Position(s.ring, c), |s.ring|)
  }

  lemma PositionOf(ring: seq<nat>, i: nat)
    requires NoRepeats(ring) && i < |ring|
    ensures Position(ring, ring[i]) == i
  {
  }

  /** A switch reaches `c`, or comes closer to it. */
  lemma SwitchCloser(s: State, s': State, c: nat)
    requires NoRepeats(s.ring) && s.current in s.ring && c in s.ring && Live(s.status, c) && Switches(s, s')
    ensures s'.ring == s.ring && s'.current in s'.ring && Live(s'.status, c)
    ensures s'.current == c || Distance(s', c) < Distance(s, c)
  {
    var i := Position(s.ring, s.current);
    ChosenIsNext(s);
    Closer(s.ring, s.status, i, Position(s.ring, c));
    PositionOf(s.ring, NextIndex(s.ring, s.status, i));
  }

  /** A stretch of steps in which no coroutine is started or collected. */
  ghost predicate RingFixed(states: seq<State>, steps: seq<Step>) {
    && |states| == |steps| + 1
    && forall i :: 0 <= i < |steps| ==> Next(states[i], steps[i], states[i + 1]) && states[i + 1].ring == states[i].ring
  }

  /** The switches among the steps of such a stretch: all but the first half of `co_wait`. */
  ghost function Turns(steps: seq<Step>): nat {
    if steps == [] then 0 else (if steps[0].BeginWait? then 0 else 1) + Turns(steps[1..])
  }

  /** One step of the stretch: the awaited turn comes, or comes closer, or nothing switches. */
  lemma StepCloser(s: State, step: Step, s': State, c: nat)
    requires Inv(s) && Next(s, step, s') && s'.ring == s.ring && Live(s.status, c) && c != s.current
    ensures Inv(s') && Live(s'.status, c)
    ensures if step.BeginWait? then s'.current == s.current
            else s'.current == c || Distance(s', c) < Distance(s, c)
  {
    StepInv(s, step, s');
    match step
    case Start(id) => assert false;
    case Yield => SwitchCloser(Save(s), s', c);
    case BeginWait(id) =>
    case WaitTurn =>
      if s.status[s.waits[s.current]] == Dead {
        assert false;
      } else {
        SwitchCloser(Save(s), s', c);
      }
    case Return => SwitchCloser(s.(status := s.status[s.current := Dead]), s', c);
  }

  /** While the ring is fixed, a live coroutine runs within as many switches as it is places away. */
  lemma {:induction false} ChosenSoon(states: seq<State>, steps: seq<Step>, c: nat) returns (k: nat)
    requires RingFixed(states, steps) && Inv(states[0]) && Live(states[0].status, c) && c != states[0].current
    requires Turns(steps) >= Distance(states[0], c)
    ensures 1 <= k <= |steps| && states[k].current == c
    ensures Turns(steps[..k]) <= Distance(states[0], c)
    decreases |steps|
  {
    StepCloser(states[0], steps[0], states[1], c);
    assert steps[..1][1..] == [];
    if states[1].current == c {
      k := 1;
    } else {
      var rest := ChosenSoon(states[1..], steps[1..], c);
      k := rest + 1;
      assert steps[..k][0] == steps[0] && steps[..k][1..] == steps[1..][..rest];
    }
  }

  /** In every run: whatever is live when the ring becomes fixed has run once `co_count - 1` switches have
      passed. */
  lemma EveryTurnComes(states: seq<State>, steps: seq<Step>, a: nat, b: nat, c: nat)
    requires IsRun(states, steps) && a <= b <= |steps| && RingFixed(states[a..b + 1], steps[a..b])
    requires Live(states[a].status, c) && Turns(steps[a..b]) >= |states[a].ring| - 1
    ensures exists k :: a <= k <= b && states[k].current == c
  {
    RunInv(states, steps, a);
    if c != states[a].current {
      assert states[a..b + 1][0] == states[a];
      var k := ChosenSoon(states[a..b + 1], steps[a..b], c);
      assert states[a + k].current == c;
    }
  }

  // ------------------------------------------------------------------ order

  /** Slot `i` of a ring that is followed by itself. */
  function Cyclic(ring: seq<nat>, i: nat): nat
    requires i < 2 * |ring|
  {
    ring[if i < |ring| then i else i - |ring|]
  }

  /** The coroutine `j` slots behind slot `p` is live. */
  predicate LiveBehind(s: State, p: nat, j: nat)
    requires p + j < 2 * |s.ring|
  {
    Live(s.status, Cyclic(s.ring, p + j))
  }

  /** The coroutine in slot `p` gives way to the first live one behind it in the ring, and keeps running if it
      is the only one. */
  lemma FirstLiveIsNext(s: State, p: nat) returns (k: nat)
    requires NoRepeats(s.ring) && p < |s.ring| && s.ring[p] == s.current && Chosen(s).Some?
    ensures 1 <= k <= |s.ring| && LiveBehind(s, p, k) && Chosen(s) == Some(Cyclic(s.ring, p + k))
    ensures forall j: nat :: 1 <= j < k ==> !LiveBehind(s, p, j)
  {
    PositionOf(s.ring, p);
    k := NextOffset(s.ring, s.status, p, 1);
    forall j: nat | 1 <= j < k && j <= |s.ring| ensures !LiveBehind(s, p, j) {
      assert Around(p, j, |s.ring|) < |s.ring|;
    }
    assert Live(s.status, s.current) ==> LiveBehind(s, p, |s.ring|);
  }

  /** `a` stands before `b`. */
  ghost predicate Precedes(ring: seq<nat>, a: nat, b: nat) {
    exists i, j :: 0 <= i < j < |ring| && ring[i] == a && ring[j] == b
  }

  lemma ShiftedPair(ring: seq<nat>, k: nat, i: nat, j: nat)
    requires k < |ring| && i < j < |ring| && i != k && j != k
    ensures Precedes(ring[..k] + ring[k + 1..], ring[i], ring[j])
  {
    Shifted(ring, k, i);
    Shifted(ring, k, j);
  }

  lemma RemovedPrecedes(ring: seq<nat>, c: nat, a: nat, b: nat)
    requires Precedes(ring, a, b) && a != c && b != c
    ensures Precedes(Remove(ring, c), a, b)
  {
    if c in ring {
      var i: nat, j: nat :| i < j < |ring| && ring[i] == a && ring[j] == b;
      ShiftedPair(ring, FirstAt(ring, c), i, j);
    }
  }

  lemma AppendedPrecedes(ring: seq<nat>, c: nat, a: nat, b: nat)
    requires (a in ring && b == c) || Precedes(ring, a, b)
    ensures Precedes(ring + [c], a, b)
  {
    var ring' := ring + [c];
    if Precedes(ring, a, b) {
      var i, j :| 0 <= i < j < |ring| && ring[i] == a && ring[j] == b;
      assert ring'[i] == a && ring'[j] == b;
    } else {
      var i :| 0 <= i < |ring| && ring[i] == a;
      assert ring'[i] == a && ring'[|ring|] == b;
    }
  }

  lemma OrderStep(s: State, step: Step, s': State, a: nat, b: nat)
    requires Inv(s) && Next(s, step, s') && a in s'.ring && b in s'.ring
    requires Precedes(s.ring, a, b) || (a in s.ring && step == Start(b))
    ensures Precedes(s'.ring, a, b)
  {
    match step
    case Start(id) => AppendedPrecedes(s.ring, id, a, b);
    case WaitTurn =>
      var c := s.waits[s.current];
      if s.status[c] == Dead {
        Removed(s.ring, c, a);
        Removed(s.ring, c, b);
        RemovedPrecedes(s.ring, c, a, b);
      }
    case _ =>
  }

  lemma RunStep(states: seq<State>, steps: seq<Step>, i: nat)
    requires IsRun(states, steps) && i < |steps|
    ensures Inv(states[i]) && Next(states[i], steps[i], states[i + 1])
  {
    RunInv(states, steps, i);
  }

  /** What is in the ring was there before, unless the step started it. */
  lemma StillThere(s: State, step: Step, s': State, a: nat)
    requires Inv(s) && Next(s, step, s') && a in s'.ring
    ensures a in s.ring || step == Start(a)
  {
    if step.WaitTurn? && s.status[s.waits[s.current]] == Dead {
      Removed(s.ring, s.waits[s.current], a);
    }
  }

  lemma StartedStep(s: State, step: Step, s': State)
    requires Next(s, step, s')
    ensures s.started <= s'.started && (step.Start? ==> step.id !in s.started && step.id != MAIN && step.id in s'.started)
  {
  }

  lemma RunStarted(states: seq<State>, steps: seq<Step>, i: nat)
    requires IsRun(states, steps) && i < |steps|
    ensures states[i].started <= states[i + 1].started
    ensures steps[i].Start? ==> steps[i].id !in states[i].started && steps[i].id != MAIN && steps[i].id in states[i + 1].started
  {
    RunStep(states, steps, i);
    StartedStep(states[i], steps[i], states[i + 1]);
  }

  lemma {:induction false} StartedStays(states: seq<State>, steps: seq<Step>, i: nat, j: nat)
    requires IsRun(states, steps) && i <= j <= |steps|
    ensures states[i].started <= states[j].started
    decreases j
  {
    if i < j {
      StartedStays(states, steps, i, j - 1);
      RunStarted(states, steps, j - 1);
    }
  }

  /** Nothing is started twice, and `main` not at all. */
  lemma NotAgain(states: seq<State>, steps: seq<Step>, i: nat, j: nat, a: nat)
    requires IsRun(states, steps) && i <= j < |steps| && (a == MAIN || a in states[i].started)
    ensures steps[j] != Start(a)
  {
    StartedStays(states, steps, i, j);
    RunStarted(states, steps, j);
  }

  lemma OrderKept(s: State, step: Step, s': State, a: nat, b: nat)
    requires Inv(s) && Next(s, step, s') && step != Start(a) && (step == Start(b) ==> a in s.ring)
    requires a in s.ring && b in s.ring ==> Precedes(s.ring, a, b)
    ensures a in s'.ring && b in s'.ring ==> Precedes(s'.ring, a, b)
  {
    if a in s'.ring && b in s'.ring {
      StillThere(s, step, s', a);
      StillThere(s, step, s', b);
      OrderStep(s, step, s', a, b);
    }
  }

  /** In every run the ring keeps coroutines in the order in which they were started, `main` first. */
  lemma {:induction false} StartedInOrder(states: seq<State>, steps: seq<Step>, i: nat, j: nat, a: nat, b: nat)
    requires IsRun(states, steps) && i <= j < |steps| && steps[i] == Start(b) && a in states[i].ring
    ensures a in states[j + 1].ring && b in states[j + 1].ring ==> Precedes(states[j + 1].ring, a, b)
    decreases j
  {
    NewInRing(states, steps, i, a, b);
    if i < j {
      StartedInOrder(states, steps, i, j - 1, a, b);
      NotAgain(states, steps, i, j, a);
      NotAgain(states, steps, i + 1, j, b);
    }
    RunOrder(states, steps, j, a, b);
  }

  lemma RunOrder(states: seq<State>, steps: seq<Step>, j: nat, a: nat, b: nat)
    requires IsRun(states, steps) && j < |steps| && steps[j] != Start(a) && (steps[j] == Start(b) ==> a in states[j].ring)
    requires a in states[j].ring && b in states[j].ring ==> Precedes(states[j].ring, a, b)
    ensures a in states[j + 1].ring && b in states[j + 1].ring ==> Precedes(states[j + 1].ring, a, b)
  {
    RunStep(states, steps, j);
    OrderKept(states[j], steps[j], states[j + 1], a, b);
  }

  /** When `b` is started, `a` is there and `b` is not. */
  lemma NewInRing(states: seq<State>, steps: seq<Step>, i: nat, a: nat, b: nat)
    requires IsRun(states, steps) && i < |steps| && steps[i] == Start(b) && a in states[i].ring
    ensures b !in states[i].ring && a != b && b in states[i + 1].started && (a == MAIN || a in states[i].started)
  {
    RunStep(states, steps, i);
    RunStarted(states, steps, i);
  }

  /** `x` is inside its wait for `id`, or `id` has been collected. */
  predicate WaitsFor(s: State, x: nat, id: nat) {
    (x in s.waits && s.waits[x] == id) || id in s.collected
  }

  lemma WaitsForStep(s: State, step: Step, s': State, x: nat, id: nat)
    requires Next(s, step, s')
    requires WaitsFor(s, x, id) || (step == BeginWait(id) && s.current == x)
    ensures WaitsFor(s', x, id)
  {
  }

  lemma {:induction false} StaysWaiting(states: seq<State>, steps: seq<Step>, i: nat, j: nat, x: nat, id: nat)
    requires IsRun(states, steps) && i <= j < |steps| && steps[i] == BeginWait(id) && states[i].current == x
    ensures WaitsFor(states[j + 1], x, id)
    decreases j
  {
    if i < j {
      StaysWaiting(states, steps, i, j - 1, x, id);
    }
    RunWaits(states, steps, j, x, id);
  }

  lemma RunWaits(states: seq<State>, steps: seq<Step>, j: nat, x: nat, id: nat)
    requires IsRun(states, steps) && j < |steps|
    requires WaitsFor(states[j], x, id) || (steps[j] == BeginWait(id) && states[j].current == x)
    ensures WaitsFor(states[j + 1], x, id)
  {
    RunStep(states, steps, j);
    WaitsForStep(states[j], steps[j], states[j + 1], x, id);
  }

  /** In every run: whatever `x` does next after its wait for `id`, other than go on waiting, `id` has been
      collected by then. */
  lemma WaitEndsWithCollection(states: seq<State>, steps: seq<Step>, i: nat, j: nat, x: nat, id: nat)
    requires IsRun(states, steps) && i < j < |steps| && steps[i] == BeginWait(id) && states[i].current == x
    requires states[j].current == x && !steps[j].WaitTurn?
    ensures id in states[j].collected
  {
    StaysWaiting(states, steps, i, j - 1, x, id);
    RunStep(states, steps, j);
  }

  /** Step `i` is the return of `c` from its function. */
  predicate ReturnsAt(states: seq<State>, steps: seq<Step>, i: nat, c: nat) {
    i < |steps| && i < |states| && steps[i] == Return && states[i].current == c
  }

  /** `c` is dead or has been collected. */
  predicate IsOver(s: State, c: nat) {
    c in s.collected || (c in s.status && s.status[c] == Dead)
  }

  lemma OverStep(s: State, step: Step, s': State, c: nat)
    requires Inv(s) && Next(s, step, s') && IsOver(s', c)
    ensures IsOver(s, c) || (step == Return && s.current == c)
  {
  }

  /** In every run only what has returned from its function is dead, and only that is collected. */
  lemma {:induction false} OverHasReturned(states: seq<State>, steps: seq<Step>, j: nat, c: nat) returns (i: nat)
    requires IsRun(states, steps) && j < |states| && IsOver(states[j], c)
    ensures i < j && ReturnsAt(states, steps, i, c)
    decreases j
  {
    if j == 0 {
      assert false;
    }
    RunOver(states, steps, j - 1, c);
    if IsOver(states[j - 1], c) {
      i := OverHasReturned(states, steps, j - 1, c);
    } else {
      i := j - 1;
    }
  }

  lemma RunOver(states: seq<State>, steps: seq<Step>, i: nat, c: nat)
    requires IsRun(states, steps) && i < |steps| && IsOver(states[i + 1], c)
    ensures IsOver(states[i], c) || ReturnsAt(states, steps, i, c)
  {
    RunStep(states, steps, i);
    OverStep(states[i], steps[i], states[i + 1], c);
  }
}
