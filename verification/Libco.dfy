/** The coroutine library of `minilabs/libco/co.c` in place: the two loops of `schedule` and the shift of
the ring in `co_wait`, each proved to be a step of `Coroutines`.

`co_pool` is an array of `MAX_CO` slots, the first `count` of them in use.  The context a `setjmp` saved
and the position of a coroutine inside `co_wait` are ghost.
 */
module Libco {
  import opened Common
  import opened Coroutines

  class Library {
    var pool: array<nat>
    var count: nat
    var status: map<nat, Status>
    var current: nat
    ghost var saved: set<nat>
    ghost var waits: map<nat, nat>
    ghost var waited: set<nat>
    ghost var started: set<nat>
    ghost var collected: set<nat>

    ghost predicate Shape()
      reads this
    {
      pool.Length == MAX_CO && count <= MAX_CO
    }

    ghost function View(): State
      requires Shape()
      reads this, pool
    {
      State(pool[..count], status, current, saved, waits, waited, started, collected)
    }

    ghost predicate Valid()
      reads this, pool
    {
      Shape() && Inv(View())
    }

    /** `ensure_init`. */
    constructor ()
      ensures Valid() && Coroutines.Init(View()) && fresh(pool)
    {
      pool := new nat[MAX_CO];
      count := 1;
      status := map[MAIN := Running];
      current := MAIN;
      saved, waits, waited, started, collected := {}, map[], {}, {}, {};
      new;
      pool[0] := MAIN;
      assert pool[..count] == [MAIN];
      RunInv([View()], [], 0);
    }

    /** The search loops of `schedule`. */
    method Search() returns (next: Option<nat>)
      requires Shape() && count > 0 && current in pool[..count]
      requires forall i :: 0 <= i < count ==> pool[i] in status
      ensures next == Chosen(View())
    {
      ghost var ring := pool[..count];
      var start := FindSlot(current);
      var off := 1;
      while off <= count
        invariant 1 <= off <= count + 1
        invariant NextOffset(ring, status, start, 1) == NextOffset(ring, status, start, off)
      {
        var slot := if start + off < count then start + off else start + off - count;
        var cand := pool[slot];
        assert cand == ring[Around(start, off, count)];
        if status[cand] == New || status[cand] == Running {
          return Some(cand);
        }
        off := off + 1;
      }
      if current in status && (status[current] == Running || status[current] == New) {
        return Some(current);
      }
      next := None;
    }

    /** The slot of a coroutine in the ring. */
    method FindSlot(c: nat) returns (i: nat)
      requires Shape() && c in pool[..count]
      ensures i == Position(pool[..count], c) && i < count
    {
      ghost var ring := pool[..count];
      i := 0;
      while pool[i] != c
        invariant i < count && forall k :: 0 <= k < i ==> ring[k] != c
        invariant c in ring[i..]
        decreases count - i
      {
        assert ring[i..] == [ring[i]] + ring[i + 1..];
        i := i + 1;
      }
      FirstSlot(ring, c, i);
    }

    /** `schedule`: the choice and the switch.  The deadlock exit is not taken. */
    method Schedule(ghost was: State)
      requires Shape() && View() == was && was.ring != [] && MAIN in was.ring && current in was.ring
      requires Live(was.status, MAIN) && forall c :: c in was.ring ==> c in was.status
      modifies this`current, this`status, this`saved
      ensures Shape() && Switches(was, View())
    {
      SomethingRunnable(was);
      assert forall i :: 0 <= i < count ==> pool[i] in was.ring;
      var next := Search();
      current := next.value;
      status := status[current := Running];
      saved := saved - {current};
    }

    /** `co_start`. */
    method Start(id: nat)
      requires Valid() && current !in waits && id !in started && id != MAIN && count < MAX_CO
      modifies this`count, this`status, this`started, pool
      ensures Valid() && Next(old(View()), Step.Start(id), View())
    {
      ghost var was := View();
      status := status[id := New];
      pool[count] := id;
      count := count + 1;
      started := started + {id};
      assert pool[..count] == was.ring + [id];
      StepInv(was, Step.Start(id), View());
    }

    /** `co_yield`. */
    method Yield()
      requires Valid() && current !in waits
      modifies this`current, this`status, this`saved
      ensures Valid() && Next(old(View()), Step.Yield, View())
    {
      ghost var was := View();
      saved := saved + {current};
      Schedule(Save(was));
      StepInv(was, Step.Yield, View());
    }

    /** The end of `co_entry`: the function of the current coroutine has returned. */
    method Return()
      requires Valid() && current !in waits && current != MAIN
      modifies this`current, this`status, this`saved
      ensures Valid() && Next(old(View()), Step.Return, View())
    {
      ghost var was := View();
      status := status[current := Dead];
      Schedule(View());
      StepInv(was, Step.Return, View());
    }

    /** The call of `co_wait`. */
    method BeginWait(id: nat)
      requires Valid() && current !in waits && id in started && id !in waited && id != current
      modifies this`waits, this`waited
      ensures Valid() && Next(old(View()), Step.BeginWait(id), View())
    {
      ghost var was := View();
      waits := waits[current := id];
      waited := waited + {id};
      StepInv(was, Step.BeginWait(id), View());
    }

    /** Take `c` out of the ring. */
    method Shift(c: nat)
      requires Shape() && c in pool[..count]
      modifies pool, this`count
      ensures Shape() && pool[..count] == Remove(old(pool[..count]), c)
    {
      ghost var ring := pool[..count];
      var idx := FindSlot(c);
      ShiftDown(pool, idx, count);
      count := count - 1;
      assert ring[idx + 1..] == old(pool[idx + 1..count]);
    }

    /** The end of `co_wait`: the awaited coroutine leaves the ring. */
    method CollectDead(id: nat)
      requires Shape() && id in pool[..count]
      modifies this`count, this`status, this`saved, this`waits, this`collected, pool
      ensures Shape() && View() == Collect(old(View()), id)
    {
      Shift(id);
      status := status - {id};
      collected := collected + {id};
      saved := saved - {id};
      waits := waits - {current};
    }

    /** The body of the loop of `co_wait`: a yield from inside the wait. */
    method YieldInWait()
      requires Valid() && current in waits
      modifies this`current, this`status, this`saved
      ensures Valid() && Switches(Save(old(View())), View())
    {
      ghost var was := View();
      saved := saved + {current};
      Schedule(Save(was));
      YieldInv(was, View());
    }

    /** One turn of `co_wait`: `true` once the awaited coroutine is collected. */
    method WaitTurn(id: nat) returns (done: bool)
      requires Valid() && current in waits && waits[current] == id
      modifies this`count, this`current, this`status, this`saved, this`waits, this`collected, pool
      ensures Valid() && Next(old(View()), Step.WaitTurn, View())
      ensures done == old(id in status && status[id] == Dead)
    {
      ghost var was := View();
      done := status[id] == Dead;
      if done {
        CollectInv(was, id);
        CollectDead(id);
      } else {
        YieldInWait();
      }
    }
  }

  /** The slots behind `idx` move down by one. */
  method ShiftDown(a: array<nat>, idx: nat, n: nat)
    requires idx < n <= a.Length
    modifies a
    ensures a[..n - 1] == old(a[..idx]) + old(a[idx + 1..n])
  {
    var i := idx;
    while i < n - 1
      invariant idx <= i <= n - 1
      invariant forall k :: 0 <= k < idx ==> a[k] == old(a[k])
      invariant forall k :: idx <= k < i ==> a[k] == old(a[k + 1])
      invariant forall k :: i < k < n ==> a[k] == old(a[k])
    {
      a[i] := a[i + 1];
      i := i + 1;
    }
  }

  lemma {:induction false} FirstSlot(ring: seq<nat>, c: nat, i: nat)
    requires i < |ring| && ring[i] == c && forall k :: 0 <= k < i ==> ring[k] != c
    ensures Position(ring, c) == i
  {
    if i > 0 {
      FirstSlot(ring[1..], c, i - 1);
    }
  }
}
