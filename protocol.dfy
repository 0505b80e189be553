/** The state the monitor protects, as a value, and the decisions its two
    critical sections make. `free[s]` is the source's `chopStick[s]` (true
    when chopstick `s` lies on the table); `owner[s]` is a ghost record of
    which philosopher holds chopstick `s`, or `Nobody`. */
module Protocol {
  import opened Ring

  const Nobody: int := -1

  datatype Table = Table(free: seq<bool>, owner: seq<int>)

  /** The outcome of one pass of the check in `GetChopSticks`: either both
      chopsticks are picked up, or the philosopher blocks on the condition
      of chopstick `slot`. */
  datatype Step = Acquired | Wait(slot: int)

  predicate WellFormed(t: Table) {
    |t.free| == N && |t.owner| == N
  }

  /** Philosopher `id` holds both of its chopsticks. */
  predicate Holds(t: Table, id: int)
    requires WellFormed(t) && IsPhilosopher(id)
  {
    t.owner[Left(id)] == id && t.owner[Right(id)] == id
  }

  /** The monitor's invariant: a chopstick is in use exactly when it has an
      owner, and an owner is a philosopher who uses that chopstick and holds
      both of its chopsticks (no philosopher ever holds just one). */
  predicate Consistent(t: Table) {
    && WellFormed(t)
    && forall s :: 0 <= s < N ==>
         && (t.free[s] <==> t.owner[s] == Nobody)
         && (t.owner[s] != Nobody ==>
               IsPhilosopher(t.owner[s]) && Uses(t.owner[s], s) && Holds(t, t.owner[s]))
  }

  /** The table as the program starts: all five chopsticks on the table. */
  function Initial(): (t: Table)
    ensures Consistent(t)
    ensures forall s :: 0 <= s < N ==> t.free[s]
    ensures forall id :: IsPhilosopher(id) ==> !Holds(t, id)
  {
    Table(seq(N, _ => true), seq(N, _ => Nobody))
  }

  /** The chopstick a philosopher whose pair is not wholly free blocks on:
      its left one when that is in use, otherwise its right one. */
  function WaitSlot(free: seq<bool>, id: int): (s: int)
    requires |free| == N && IsPhilosopher(id)
    requires !(free[Left(id)] && free[Right(id)])
    ensures Uses(id, s)
    ensures !free[s]
    ensures s == Left(id) <==> !free[Left(id)]
  {
    if !free[Left(id)] then Left(id) else Right(id)
  }

  /** What one pass of the check-wait-recheck loop decides, reading only the
      chopstick flags. */
  function Decide(free: seq<bool>, id: int): (step: Step)
    requires |free| == N && IsPhilosopher(id)
    ensures step == Acquired <==> free[Left(id)] && free[Right(id)]
    ensures step.Wait? ==> Uses(id, step.slot) && !free[step.slot]
  {
    if !free[Left(id)] || !free[Right(id)] then Wait(WaitSlot(free, id)) else Acquired
  }

  /** Picking up both chopsticks of `id`, allowed only when both are free. */
  function Acquire(t: Table, id: int): (r: Table)
    requires Consistent(t) && IsPhilosopher(id)
    requires t.free[Left(id)] && t.free[Right(id)]
    ensures Consistent(r)
    ensures Holds(r, id)
    ensures !r.free[Left(id)] && !r.free[Right(id)]
    ensures forall s :: 0 <= s < N && !Uses(id, s) ==>
              r.free[s] == t.free[s] && r.owner[s] == t.owner[s]
  {
    Table(t.free[Left(id) := false][Right(id) := false],
          t.owner[Left(id) := id][Right(id) := id])
  }

  /** The two writes of `ReleaseChopSticks`, which the C code performs
      without checking who holds the chopsticks. */
  function PutDown(free: seq<bool>, id: int): (r: seq<bool>)
    requires |free| == N && IsPhilosopher(id)
    ensures |r| == N
    ensures r[Left(id)] && r[Right(id)]
    ensures forall s :: 0 <= s < N && !Uses(id, s) ==> r[s] == free[s]
  {
    free[Left(id) := true][Right(id) := true]
  }

  /** Putting down both chopsticks of `id`, which holds them. */
  function Release(t: Table, id: int): (r: Table)
    requires Consistent(t) && IsPhilosopher(id) && Holds(t, id)
    ensures Consistent(r)
    ensures !Holds(r, id)
    ensures r.free[Left(id)] && r.free[Right(id)]
    ensures forall s :: 0 <= s < N && !Uses(id, s) ==>
              r.free[s] == t.free[s] && r.owner[s] == t.owner[s]
  {
    Table(PutDown(t.free, id), t.owner[Left(id) := Nobody][Right(id) := Nobody])
  }

  /** Why releasing requires holding: if philosopher 0 ran the unchecked
      writes while philosopher 1 eats, chopstick 1 would read free although
      philosopher 1 holds it, and philosopher 0's next check would let it
      pick up that chopstick too. */
  lemma ReleaseWithoutHoldingBreaksExclusion()
    ensures var t := Acquire(Initial(), 1);
            var bad := Table(PutDown(t.free, 0), t.owner);
            && Holds(t, 1)
            && !Consistent(bad)
            && Decide(bad.free, 0) == Acquired
  {
    var t := Acquire(Initial(), 1);
    var bad := Table(PutDown(t.free, 0), t.owner);
    assert bad.free[1] && bad.owner[1] == 1;
  }

  /** Each chopstick is in use exactly when some philosopher who uses it
      holds its pair, and that philosopher is unique. */
  lemma ExactlyOneOwner(t: Table, s: int)
    requires Consistent(t) && IsSlot(s)
    ensures !t.free[s] <==> exists p :: IsPhilosopher(p) && Uses(p, s) && Holds(t, p)
    ensures forall p, q ::
              (IsPhilosopher(p) && IsPhilosopher(q) &&
               Uses(p, s) && Holds(t, p) && Uses(q, s) && Holds(t, q)) ==> p == q
  {
    if !t.free[s] {
      var o := t.owner[s];
      assert IsPhilosopher(o) && Uses(o, s) && Holds(t, o);
    }
  }

  /** Mutual exclusion: neighbours, who share a chopstick, never eat at the
      same time. */
  lemma NeighborsExclude(t: Table, id: int)
    requires Consistent(t) && IsPhilosopher(id)
    ensures !(Holds(t, id) && Holds(t, Next(id)))
  {
  }

  /** The set of philosophers eating. */
  function Eating(t: Table): (e: set<int>)
    requires WellFormed(t)
    ensures forall p :: p in e <==> IsPhilosopher(p) && Holds(t, p)
  {
    set p | 0 <= p < N && Holds(t, p)
  }

  /** With five chopsticks, at most two philosophers eat at any time. */
  lemma AtMostTwoEat(t: Table)
    requires Consistent(t)
    ensures |Eating(t)| <= 2
  {
    var e := Eating(t);
    forall p | IsPhilosopher(p) && p in e ensures Next(p) !in e {
      NeighborsExclude(t, p);
    }
    assert e <= {0, 1, 2, 3, 4};
    if 0 in e {
      if 2 in e { WithinTwo(e, 0, 2); } else { WithinTwo(e, 0, 3); }
    } else if 1 in e {
      if 3 in e { WithinTwo(e, 1, 3); } else { WithinTwo(e, 1, 4); }
    } else {
      if 2 in e { WithinTwo(e, 2, 4); } else { WithinTwo(e, 3, 4); }
    }
  }

  lemma WithinTwo(e: set<int>, x: int, y: int)
    requires e <= {x, y}
    ensures |e| <= 2
  {
    if x in e && y in e {
      assert e == {x, y};
    } else if x in e {
      assert e == {x};
    } else if y in e {
      assert e == {y};
    } else {
      assert e == {};
    }
  }

  /** The release step undoes the acquire step: starting with both of `id`'s
      chopsticks free, acquiring and then releasing returns the table to what
      it was. */
  lemma AcquireReleaseRoundTrip(t: Table, id: int)
    requires Consistent(t) && IsPhilosopher(id)
    requires t.free[Left(id)] && t.free[Right(id)]
    ensures Release(Acquire(t, id), id) == t
  {
    assert t.owner[Left(id)] == Nobody && t.owner[Right(id)] == Nobody;
    RestorePair(t.free, Left(id), Right(id), false);
    RestorePair(t.owner, Left(id), Right(id), id);
  }

  /** Release, then re-acquire: after releasing, the next pass of the check
      by the same philosopher succeeds and yields the state it released. */
  lemma ReleaseThenReacquire(t: Table, id: int)
    requires Consistent(t) && IsPhilosopher(id) && Holds(t, id)
    ensures Decide(Release(t, id).free, id) == Acquired
    ensures Acquire(Release(t, id), id) == t
  {
    assert !t.free[Left(id)] && !t.free[Right(id)];
    RestorePair(t.free, Left(id), Right(id), true);
    RestorePair(t.owner, Left(id), Right(id), Nobody);
  }

  /** Overwriting two entries and then writing back their old values gives
      the sequence back. */
  lemma RestorePair<T>(xs: seq<T>, i: int, j: int, v: T)
    requires 0 <= i < |xs| && 0 <= j < |xs| && i != j
    ensures xs[i := v][j := v][i := xs[i]][j := xs[j]] == xs
  {
  }
}
