/** The bounded buffer of `oslabs/kernel/src/kmt.c:401-428`: any number of producers and consumers, as
threads of the kernel of `Semaphores`, on any number of CPUs.

A step is a semaphore call of a client, a locked section on the buffer, or any other step of the
kernel (traps, switches, other semaphores).  `items` and `taken` are history.
 */
module BoundedBuffer {
  import opened Common
  import opened Scheduler
  import S = Semaphores

  const CAP: nat := 8
  const EMPTY: nat := 0      // index of sem_empty
  const FILL: nat := 1       // index of sem_fill

  datatype At = Start | Waiting | Holding | Signalling | Done

  datatype Client = Client(produces: bool, at: At)

  datatype State = State(
    kernel: S.Kernel,
    clients: map<TaskId, Client>,
    buffer: seq<int>,
    head: nat,
    tail: nat,
    produced: nat,
    consumed: nat,
    overflow: bool,
    underflow: bool,
    items: seq<int>,          // what was produced, in order
    taken: seq<int>)          // what was consumed, in order

  function WaitsOn(c: Client): nat { if c.produces then EMPTY else FILL }

  function Signals(c: Client): nat { if c.produces then FILL else EMPTY }

  /** Indices run modulo `2 * CAP`, slots modulo `CAP`. */
  function Wrap(x: nat): nat { x % 16 }

  function Slot(x: nat): nat { x % 8 }

  /** `used` as the producer computes it from the two indices. */
  function Used(head: nat, tail: nat): nat
    requires tail <= 2 * CAP
  {
    Wrap(head - tail + 2 * CAP)
  }

  /** The producer's locked section. */
  function Produce(s: State, x: int): State
    requires |s.buffer| == CAP && s.tail <= 2 * CAP
  {
    s.(overflow := s.overflow || Used(s.head, s.tail) >= CAP,
       buffer := s.buffer[Slot(s.head) := x],
       head := Wrap(s.head + 1),
       produced := s.produced + 1,
       items := s.items + [x])
  }

  /** The consumer's locked section. */
  function Consume(s: State): State
    requires |s.buffer| == CAP
  {
    s.(underflow := s.underflow || s.head == s.tail,
       tail := Wrap(s.tail + 1),
       consumed := s.consumed + 1,
       taken := s.taken + [s.buffer[Slot(s.tail)]])
  }

  datatype Step =
    | Wait(cpu: nat, task: TaskId)
    | Return(cpu: nat, task: TaskId)
    | Section(task: TaskId, item: int)
    | Signal(task: TaskId, last: bool)
    | Join(task: TaskId, client: Client)
    | Other(step: S.Step)

  function Goto(s: State, t: TaskId, at: At): State
    requires t in s.clients
  {
    s.(clients := s.clients[t := s.clients[t].(at := at)])
  }

  /** Steps of the kernel that use the two semaphores; only clients make them. */
  predicate Touches(k: S.Kernel, step: S.Step) {
    match step
    case SemWait(_, _, i) => i < 2
    case SemSignal(i) => i < 2
    case WaitReturn(_, t) => t in k.pc && k.pc[t].Slept? && k.pc[t].sem < 2
    case _ => false
  }

  ghost predicate Next(s: State, step: Step, s': State) {
    match step
    case Wait(c, t) =>
      && t in s.clients && s.clients[t].at == Start && WaitsOn(s.clients[t]) < |s.kernel.sems|
      && var i := WaitsOn(s.clients[t]);
         && S.Next(s.kernel, S.SemWait(c, t, i), s'.kernel)
         && s' == Goto(s, t, if S.Blocks(s.kernel.sems[i]) then Waiting else Holding).(kernel := s'.kernel)
    case Return(c, t) =>
      && t in s.clients && s.clients[t].at == Waiting
      && t in s.kernel.pc && s.kernel.pc[t] == S.Slept(WaitsOn(s.clients[t]))
      && S.Next(s.kernel, S.WaitReturn(c, t), s'.kernel)
      && s' == Goto(s, t, Holding).(kernel := s'.kernel)
    case Section(t, x) =>
      && t in s.clients && s.clients[t].at == Holding && |s.buffer| == CAP && s.tail <= 2 * CAP
      && s' == Goto(if s.clients[t].produces then Produce(s, x) else Consume(s), t, Signalling)
    case Signal(t, last) =>
      && t in s.clients && s.clients[t].at == Signalling
      && S.Next(s.kernel, S.SemSignal(Signals(s.clients[t])), s'.kernel)
      && s' == Goto(s, t, if last then Done else Start).(kernel := s'.kernel)
    case Join(t, c) =>
      && t !in s.clients && c.at == Start && s' == s.(clients := s.clients[t := c])
    case Other(st) =>
      && !Touches(s.kernel, st) && S.Next(s.kernel, st, s'.kernel) && s' == s.(kernel := s'.kernel)
  }

  /** After `kmt_selftest_start` has initialised the two semaphores and the buffer. */
  ghost predicate Init(s: State, cpus: nat) {
    && S.Inv(s.kernel, cpus)
    && s.kernel.sems == [S.Sem(CAP, CAP, [], [], [], 0, 0), S.Sem(0, 0, [], [], [], 0, 0)]
    && s.clients == map[] && |s.buffer| == CAP
    && s.head == s.tail == s.produced == s.consumed == 0 && !s.overflow && !s.underflow
    && s.items == [] && s.taken == []
  }

  // ------------------------------------------------------------------ invariant

  ghost function Clients(clients: map<TaskId, Client>, produces: bool, at: At): set<TaskId> {
    set t | t in clients && clients[t] == Client(produces, at)
  }

  ghost function Count(clients: map<TaskId, Client>, produces: bool, at: At): nat {
    |Clients(clients, produces, at)|
  }

  /** Semaphore counts against sections executed and clients in between. */
  ghost predicate Accounts(sems: seq<S.Sem>, clients: map<TaskId, Client>, produced: nat, consumed: nat) {
    && |sems| >= 2
    && sems[EMPTY].init == CAP && sems[FILL].init == 0
    && sems[EMPTY].done == produced + Count(clients, true, Holding)
    && sems[FILL].signals == produced - Count(clients, true, Signalling)
    && sems[FILL].done == consumed + Count(clients, false, Holding)
    && sems[EMPTY].signals == consumed - Count(clients, false, Signalling)
  }

  /** The buffer is a window on the items produced and not yet consumed. */
  ghost predicate Contents(s: State) {
    && s.head == Wrap(s.produced) && s.tail == Wrap(s.consumed)
    && |s.buffer| == CAP && |s.items| == s.produced && s.consumed <= s.produced <= s.consumed + CAP
    && (forall j :: s.consumed <= j < s.produced ==> s.buffer[Slot(j)] == s.items[j])
    && s.taken == s.items[..s.consumed]
    && !s.overflow && !s.underflow
  }

  ghost predicate Inv(s: State, cpus: nat) {
    && S.Inv(s.kernel, cpus)
    && Accounts(s.kernel.sems, s.clients, s.produced, s.consumed)
    && Contents(s)
  }

  // ------------------------------------------------------------------ counting clients

  /** A client enters a place. */
  lemma Enters(clients: map<TaskId, Client>, t: TaskId, c: Client)
    requires t in clients && clients[t] != c
    ensures Count(clients[t := c], c.produces, c.at) == Count(clients, c.produces, c.at) + 1
  {
    assert Clients(clients[t := c], c.produces, c.at) == Clients(clients, c.produces, c.at) + {t};
  }

  /** A client leaves its place. */
  lemma Leaves(clients: map<TaskId, Client>, t: TaskId, c: Client)
    requires t in clients && clients[t] != c
    ensures Count(clients[t := c], clients[t].produces, clients[t].at) == Count(clients, clients[t].produces, clients[t].at) - 1
  {
    var was := clients[t];
    assert Clients(clients, was.produces, was.at) == Clients(clients[t := c], was.produces, was.at) + {t};
  }

  /** Other places keep their clients. */
  lemma Stays(clients: map<TaskId, Client>, t: TaskId, c: Client, produces: bool, at: At)
    requires c != Client(produces, at) && (t in clients ==> clients[t] != Client(produces, at))
    ensures Count(clients[t := c], produces, at) == Count(clients, produces, at)
  {
    assert Clients(clients[t := c], produces, at) == Clients(clients, produces, at);
  }

  lemma SomeClient(clients: map<TaskId, Client>, t: TaskId)
    requires t in clients
    ensures Count(clients, clients[t].produces, clients[t].at) >= 1
  {
    assert t in Clients(clients, clients[t].produces, clients[t].at);
  }

  /** The counts after client `t` moved to `at`. */
  lemma Moved(clients: map<TaskId, Client>, t: TaskId, at: At, produces: bool, a: At)
    requires t in clients && clients[t].at != at
    ensures Count(clients[t := clients[t].(at := at)], produces, a) == Count(clients, produces, a)
              + (if clients[t].produces == produces && a == at then 1 else 0)
              - (if clients[t].produces == produces && a == clients[t].at then 1 else 0)
  {
    var c := clients[t].(at := at);
    if clients[t].produces == produces && a == at {
      Enters(clients, t, c);
    } else if clients[t].produces == produces && a == clients[t].at {
      Leaves(clients, t, c);
    } else {
      Stays(clients, t, c, produces, a);
    }
  }

  /** The four counts the accounts speak of, after client `t` moved to `at`. */
  lemma CountsMoved(clients: map<TaskId, Client>, t: TaskId, at: At)
    requires t in clients && clients[t].at != at
    ensures forall produces, a | a == Holding || a == Signalling ::
              Count(clients[t := clients[t].(at := at)], produces, a) == Count(clients, produces, a)
                + (if clients[t].produces == produces && a == at then 1 else 0)
                - (if clients[t].produces == produces && a == clients[t].at then 1 else 0)
  {
    forall produces, a ensures
      Count(clients[t := clients[t].(at := at)], produces, a) == Count(clients, produces, a)
        + (if clients[t].produces == produces && a == at then 1 else 0)
        - (if clients[t].produces == produces && a == clients[t].at then 1 else 0)
    {
      Moved(clients, t, at, produces, a);
    }
  }

  /** The semaphores bound what clients may do: this is where the kernel's guarantee is used. */
  lemma Room(s: State, cpus: nat)
    requires S.Inv(s.kernel, cpus) && Accounts(s.kernel.sems, s.clients, s.produced, s.consumed)
    ensures s.produced + Count(s.clients, true, Holding) <= CAP + s.consumed
    ensures s.consumed + Count(s.clients, false, Holding) <= s.produced
  {
    S.WaitsBounded(s.kernel, cpus, EMPTY);
    S.WaitsBounded(s.kernel, cpus, FILL);
  }

  // ------------------------------------------------------------------ the buffer

  lemma WrapOf(x: nat, q: nat, r: nat)
    requires x == 16 * q + r && r < 16
    ensures Wrap(x) == r
  {
  }

  lemma SlotOf(x: nat, q: nat, r: nat)
    requires x == 8 * q + r
    ensures Slot(x) == Slot(r)
  {
  }

  lemma IndexAdvances(x: nat)
    ensures Wrap(Wrap(x) + 1) == Wrap(x + 1) && Slot(Wrap(x)) == Slot(x)
  {
    var q, r := x / 16, x % 16;
    SlotOf(x, 2 * q, r);
    if r < 15 {
      WrapOf(x + 1, q, r + 1);
    } else {
      WrapOf(x + 1, q + 1, 0);
    }
  }

  lemma UsedCounts(produced: nat, consumed: nat)
    requires consumed <= produced <= consumed + CAP
    ensures Wrap(consumed) <= 2 * CAP && Used(Wrap(produced), Wrap(consumed)) == produced - consumed
  {
    var a, h := produced / 16, produced % 16;
    var b, t := consumed / 16, consumed % 16;
    assert produced - consumed == 16 * (a - b) + h - t;
    assert a == b || a == b + 1;
    WrapOf(h - t + 16, if a == b then 1 else 0, produced - consumed);
  }

  /** Items in the window have distinct slots, so a new item overwrites none of them. */
  lemma SlotsDiffer(j: nat, produced: nat)
    requires j < produced < j + CAP
    ensures Slot(j) != Slot(produced)
  {
  }

  lemma ProduceContents(s: State, x: int)
    requires Contents(s) && s.produced < s.consumed + CAP && s.tail <= 2 * CAP
    ensures Contents(Produce(s, x))
  {
    var s' := Produce(s, x);
    IndexAdvances(s.produced);
    UsedCounts(s.produced, s.consumed);
    forall j | s'.consumed <= j < s'.produced ensures s'.buffer[Slot(j)] == s'.items[j] {
      if j < s.produced {
        SlotsDiffer(j, s.produced);
      }
    }
    assert s'.items[..s'.consumed] == s.items[..s.consumed];
  }

  lemma ConsumeContents(s: State)
    requires Contents(s) && s.consumed < s.produced
    ensures Contents(Consume(s))
  {
    var s' := Consume(s);
    IndexAdvances(s.consumed);
    UsedCounts(s.produced, s.consumed);
    assert s'.taken == s.items[..s.consumed] + [s.items[s.consumed]];
  }

  // ------------------------------------------------------------------ the accounts under each step

  lemma WaitAccounts(sems: seq<S.Sem>, clients: map<TaskId, Client>, produced: nat, consumed: nat, t: TaskId)
    requires Accounts(sems, clients, produced, consumed) && t in clients && clients[t].at == Start
    ensures var i := WaitsOn(clients[t]);
            var at := if S.Blocks(sems[i]) then Waiting else Holding;
            Accounts(sems[i := S.P(sems[i], t)], clients[t := clients[t].(at := at)], produced, consumed)
  {
    CountsMoved(clients, t, if S.Blocks(sems[WaitsOn(clients[t])]) then Waiting else Holding);
  }

  lemma ReturnAccounts(sems: seq<S.Sem>, clients: map<TaskId, Client>, produced: nat, consumed: nat, t: TaskId)
    requires Accounts(sems, clients, produced, consumed) && t in clients && clients[t].at == Waiting
    ensures var i := WaitsOn(clients[t]);
            Accounts(sems[i := sems[i].(done := sems[i].done + 1)], clients[t := clients[t].(at := Holding)], produced, consumed)
  {
    CountsMoved(clients, t, Holding);
  }

  lemma SectionAccounts(sems: seq<S.Sem>, clients: map<TaskId, Client>, produced: nat, consumed: nat, t: TaskId)
    requires Accounts(sems, clients, produced, consumed) && t in clients && clients[t].at == Holding
    ensures var (p, c) := if clients[t].produces then (produced + 1, consumed) else (produced, consumed + 1);
            Accounts(sems, clients[t := clients[t].(at := Signalling)], p, c)
  {
    CountsMoved(clients, t, Signalling);
  }

  lemma SignalAccounts(sems: seq<S.Sem>, clients: map<TaskId, Client>, produced: nat, consumed: nat, t: TaskId, at: At)
    requires Accounts(sems, clients, produced, consumed) && t in clients && clients[t].at == Signalling
    requires at == Done || at == Start
    ensures var i := Signals(clients[t]);
            Accounts(sems[i := S.V(sems[i])], clients[t := clients[t].(at := at)], produced, consumed)
  {
    CountsMoved(clients, t, at);
  }

  // ------------------------------------------------------------------ every step keeps the invariant

  lemma SectionInv(s: State, t: TaskId, x: int, s': State, cpus: nat)
    requires Inv(s, cpus) && Next(s, Section(t, x), s')
    ensures Inv(s', cpus)
  {
    Room(s, cpus);
    SomeClient(s.clients, t);
    SectionAccounts(s.kernel.sems, s.clients, s.produced, s.consumed, t);
    if s.clients[t].produces {
      ProduceContents(s, x);
    } else {
      ConsumeContents(s);
    }
  }

  lemma WaitInv(s: State, c: nat, t: TaskId, s': State, cpus: nat)
    requires Inv(s, cpus) && Next(s, Wait(c, t), s')
    ensures Inv(s', cpus)
  {
    S.StepInv(s.kernel, S.SemWait(c, t, WaitsOn(s.clients[t])), s'.kernel, cpus);
    WaitAccounts(s.kernel.sems, s.clients, s.produced, s.consumed, t);
  }

  lemma ReturnInv(s: State, c: nat, t: TaskId, s': State, cpus: nat)
    requires Inv(s, cpus) && Next(s, Return(c, t), s')
    ensures Inv(s', cpus)
  {
    S.StepInv(s.kernel, S.WaitReturn(c, t), s'.kernel, cpus);
    ReturnAccounts(s.kernel.sems, s.clients, s.produced, s.consumed, t);
  }

  lemma SignalInv(s: State, t: TaskId, last: bool, s': State, cpus: nat)
    requires Inv(s, cpus) && Next(s, Signal(t, last), s')
    ensures Inv(s', cpus)
  {
    S.StepInv(s.kernel, S.SemSignal(Signals(s.clients[t])), s'.kernel, cpus);
    SignalAccounts(s.kernel.sems, s.clients, s.produced, s.consumed, t, if last then Done else Start);
  }

  lemma JoinInv(s: State, t: TaskId, c: Client, s': State, cpus: nat)
    requires Inv(s, cpus) && Next(s, Join(t, c), s')
    ensures Inv(s', cpus)
  {
    Stays(s.clients, t, c, true, Holding);
    Stays(s.clients, t, c, false, Holding);
    Stays(s.clients, t, c, true, Signalling);
    Stays(s.clients, t, c, false, Signalling);
  }

  /** The kernel's other steps leave the two semaphores alone. */
  lemma Untouched(k: S.Kernel, st: S.Step, k': S.Kernel)
    requires S.Next(k, st, k') && !Touches(k, st) && |k.sems| >= 2
    ensures |k'.sems| >= 2 && k'.sems[EMPTY] == k.sems[EMPTY] && k'.sems[FILL] == k.sems[FILL]
  {
  }

  lemma OtherInv(s: State, st: S.Step, s': State, cpus: nat)
    requires Inv(s, cpus) && Next(s, Other(st), s')
    ensures Inv(s', cpus)
  {
    S.StepInv(s.kernel, st, s'.kernel, cpus);
    Untouched(s.kernel, st, s'.kernel);
  }

  lemma StepInv(s: State, step: Step, s': State, cpus: nat)
    requires Inv(s, cpus) && Next(s, step, s')
    ensures Inv(s', cpus)
  {
    match step
    case Wait(c, t) => WaitInv(s, c, t, s', cpus);
    case Return(c, t) => ReturnInv(s, c, t, s', cpus);
    case Section(t, x) => SectionInv(s, t, x, s', cpus);
    case Signal(t, last) => SignalInv(s, t, last, s', cpus);
    case Join(t, c) => JoinInv(s, t, c, s', cpus);
    case Other(st) => OtherInv(s, st, s', cpus);
  }

  lemma InitInv(s: State, cpus: nat)
    requires Init(s, cpus)
    ensures Inv(s, cpus)
  {
    assert forall produces, at :: Clients(s.clients, produces, at) == {};
  }

  // ------------------------------------------------------------------ runs

  ghost predicate IsRun(states: seq<State>, steps: seq<Step>, cpus: nat) {
    && |states| == |steps| + 1
    && Init(states[0], cpus)
    && forall i :: 0 <= i < |steps| ==> Next(states[i], steps[i], states[i + 1])
  }

  lemma {:induction false} RunInv(states: seq<State>, steps: seq<Step>, cpus: nat, i: nat)
    requires IsRun(states, steps, cpus) && i < |states|
    ensures Inv(states[i], cpus)
  {
    if i == 0 {
      InitInv(states[0], cpus);
    } else {
      RunInv(states, steps, cpus, i - 1);
      StepInv(states[i - 1], steps[i - 1], states[i], cpus);
    }
  }

  /** In every state of every run the buffer neither overflows nor underflows, and the items read so far
      are the items produced, in order. */
  lemma BufferSafe(states: seq<State>, steps: seq<Step>, cpus: nat, i: nat)
    requires IsRun(states, steps, cpus) && i < |states|
    ensures !states[i].overflow && !states[i].underflow
    ensures states[i].tail < 2 * CAP
    ensures 0 <= Used(states[i].head, states[i].tail) == states[i].produced - states[i].consumed <= CAP
    ensures states[i].taken <= states[i].items
  {
    RunInv(states, steps, cpus, i);
    UsedCounts(states[i].produced, states[i].consumed);
  }
}
