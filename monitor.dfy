/** The monitor's shared state as the C program keeps it: the array
    `chopStick` (true when the chopstick is free), changed in place by the two
    critical sections. Each critical section is one atomic step; the mutex and
    the condition variables are not modelled, and the conditions a step
    signals are returned as data. */
module Monitor {
  import opened Ring
  import opened Conditions
  import opened Protocol

  class ChopSticks {
    var chopStick: array<bool>
    /** Who holds each chopstick (`Nobody` when it is free). */
    ghost var owner: seq<int>

    ghost function State(): Table
      reads this, chopStick
    {
      Table(chopStick[..], owner)
    }

    /** At most one holder per chopstick, and never half a pair. */
    ghost predicate Valid()
      reads this, chopStick
    {
      chopStick.Length == N && Consistent(State())
    }

    /** The global initialiser `{true, true, true, true, true}`. */
    constructor ()
      ensures Valid() && fresh(chopStick)
      ensures State() == Initial()
    {
      chopStick := new bool[N](_ => true);
      owner := seq(N, _ => Nobody);
      new;
      assert chopStick[..] == Initial().free;
    }

    /** One pass of `GetChopSticks`' check-wait-recheck loop. When both
        chopsticks are free they are picked up and the non-neighbour
        conditions are to be signalled; otherwise nothing changes and the
        philosopher is to block on the chopstick `WaitSlot` names. */
    method TryGetChopSticks(id: int) returns (step: Step, signals: seq<int>)
      requires Valid() && IsPhilosopher(id)
      modifies this`owner, chopStick
      ensures Valid()
      ensures step == Decide(old(chopStick[..]), id)
      ensures step == Acquired ==>
                State() == Acquire(old(State()), id) && signals == NotNeighborSignals(id)
      ensures step.Wait? ==>
                State() == old(State()) && step.slot == WaitSlot(old(chopStick[..]), id) &&
                signals == []
      ensures forall s :: 0 <= s < N && !Uses(id, s) ==> chopStick[s] == old(chopStick[s])
    {
      var left, right := id, (1 + id) % N;
      if !chopStick[left] || !chopStick[right] {
        if !chopStick[left] {
          step := Wait(left);
        } else {
          step := Wait(right);
        }
        signals := [];
      } else {
        chopStick[left] := false;
        chopStick[right] := false;
        owner := owner[left := id][right := id];
        step, signals := Acquired, NotNeighborSignals(id);
        assert State() == Acquire(old(State()), id);
      }
    }

    /** `ReleaseChopSticks`: both chopsticks of `id` go back on the table and
        the neighbour conditions are to be signalled. The caller must hold
        the pair. */
    method ReleaseChopSticks(id: int) returns (signals: seq<int>)
      requires Valid() && IsPhilosopher(id) && Holds(State(), id)
      modifies this`owner, chopStick
      ensures Valid()
      ensures State() == Protocol.Release(old(State()), id)
      ensures chopStick[..] == PutDown(old(chopStick[..]), id)
      ensures signals == NeighborSignals(id)
    {
      var left, right := id, (1 + id) % N;
      chopStick[left] := true;
      chopStick[right] := true;
      owner := owner[left := Nobody][right := Nobody];
      signals := NeighborSignals(id);
      assert State() == Protocol.Release(old(State()), id);
    }
  }
}
