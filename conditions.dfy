/** The per-chopstick condition variables `resource_0_ready` ..
    `resource_4_ready`, seen only as data: which condition a blocking
    philosopher waits on, and which conditions are signalled, in order, after
    a release (`SignalNeighbor`) and after an acquire (`SignalNotNeighbor`).
    Each condition is named by the index of its chopstick. */
module Conditions {
  import opened Ring

  datatype Option<T> = None | Some(value: T)

  /** The condition `BlockOn` waits on for chopstick `s`; an index outside the
      ring selects none (the source prints an error and does not wait). */
  function BlockOnCondition(s: int): (c: Option<int>)
    ensures IsSlot(s) <==> c.Some?
    ensures c.Some? ==> c.value == s
  {
    if s == 0 then Some(0)
    else if s == 1 then Some(1)
    else if s == 2 then Some(2)
    else if s == 3 then Some(3)
    else if s == 4 then Some(4)
    else None
  }

  /** The conditions signalled after philosopher `id` puts its chopsticks
      down, in signalling order. */
  function NeighborSignals(id: int): (r: seq<int>)
    ensures IsPhilosopher(id) ==> r == [Left(id), Right(id)]
    ensures !IsPhilosopher(id) ==> r == []
  {
    if id == 0 then [0, 1]
    else if id == 1 then [1, 2]
    else if id == 2 then [2, 3]
    else if id == 3 then [3, 4]
    else if id == 4 then [4, 0]
    else []
  }

  /** The conditions signalled after philosopher `id` picks its chopsticks
      up, in signalling order. */
  function NotNeighborSignals(id: int): (r: seq<int>)
    ensures IsPhilosopher(id) ==> r == [(id + 2) % N, (id + 3) % N]
    ensures !IsPhilosopher(id) ==> r == []
  {
    if id == 0 then [2, 3]
    else if id == 1 then [3, 4]
    else if id == 2 then [4, 0]
    else if id == 3 then [0, 1]
    else if id == 4 then [1, 2]
    else []
  }

  /** After a release, exactly the two chopsticks just put down are signalled:
      the left one first, then the right one. */
  lemma NeighborSignalsReleasedPair(id: int)
    requires IsPhilosopher(id)
    ensures |NeighborSignals(id)| == 2
    ensures NeighborSignals(id)[0] == Left(id) && NeighborSignals(id)[1] == Right(id)
    ensures forall s :: s in NeighborSignals(id) <==> IsSlot(s) && Uses(id, s)
  {
  }

  /** After an acquire, two distinct chopsticks are signalled, neither of
      which is one of the pair just picked up. */
  lemma NotNeighborSignalsAvoidPair(id: int)
    requires IsPhilosopher(id)
    ensures |NotNeighborSignals(id)| == 2
    ensures NotNeighborSignals(id)[0] != NotNeighborSignals(id)[1]
    ensures forall s :: s in NotNeighborSignals(id) ==> IsSlot(s) && !Uses(id, s)
  {
  }

  /** The conditions signalled after an acquire by `id` are exactly those a
      release by the philosopher two seats to the right, `(id + 2) % 5`,
      would signal: that philosopher's own pair, which shares no chopstick
      with `id`'s. */
  lemma NotNeighborIsPairTwoSeatsAway(id: int)
    requires IsPhilosopher(id)
    ensures NotNeighborSignals(id) == NeighborSignals(Next(Next(id)))
    ensures forall s :: IsSlot(s) ==> !(Uses(id, s) && Uses(Next(Next(id)), s))
  {
  }

  /** Together the two tables reach every chopstick but one: slot
      `(id + 4) % 5`, the left chopstick of the philosopher on `id`'s left. */
  lemma SignalsCoverAllButOne(id: int)
    requires IsPhilosopher(id)
    ensures forall s :: IsSlot(s) ==>
      (s in NeighborSignals(id) + NotNeighborSignals(id) <==> s != (id + N - 1) % N)
  {
  }

  /** An identifier outside the table signals nothing and blocks on nothing. */
  lemma OutOfRangeSelectsNothing(id: int)
    requires !IsPhilosopher(id)
    ensures NeighborSignals(id) == [] && NotNeighborSignals(id) == []
    ensures BlockOnCondition(id) == None
  {
  }
}
