# Dining philosophers monitor, modelled in Dafny

This project models the shared state of a dining-philosophers monitor written
in C with pthreads. Five philosophers sit at a round table with five
chopsticks. Philosopher `id` eats with its left chopstick `id` and its right
chopstick `(id + 1) % 5`. A global array `chopStick[5]` records which
chopsticks are free (true = free). Two critical sections change it:

- `GetChopSticks` checks both chopsticks of the caller. If either is in use, it
  blocks on that chopstick's condition variable and checks again.
- `ReleaseChopSticks` puts both chopsticks back.

After each step a hand-written table says which conditions to signal.

The model treats each critical section as one atomic step on a small state
machine:

- `ring.dfy` (module `Ring`): the table size, the left/right chopstick of each
  philosopher with its wrap-around, and which philosophers share a chopstick.
- `conditions.dfy` (module `Conditions`): the condition `BlockOn` selects for a
  chopstick, and the `SignalNeighbor` / `SignalNotNeighbor` tables as
  sequences of chopstick indices, with lemmas on what they target.
- `protocol.dfy` (module `Protocol`): the state as a value `Table` (the
  chopstick flags plus a ghost owner per chopstick), the decision one pass of
  the acquire loop makes, the acquire and release transitions, and the
  invariant "a chopstick is in use exactly when it has one owner, who holds
  both of its chopsticks". Mutual exclusion, "at most two philosophers eat at
  once" and the acquire/release round trips are proved from it.
- `monitor.dfy` (module `Monitor`): the class `ChopSticks`. It holds
  `chopStick` as an `array<bool>` updated in place, plus a ghost `owner`
  sequence. Its two methods are the two critical sections, each proved against
  the `Protocol` functions. Each method also keeps the invariant `Valid()`.

Where the code and the design description differ, the model follows the code:

- The design says a release by a philosopher who does not hold its pair must
  fail fast. `ReleaseChopSticks` does no such check; it writes both flags
  unconditionally. The model states the caller's obligation as a precondition
  of `ReleaseChopSticks`. `Protocol.ReleaseWithoutHoldingBreaksExclusion`
  shows what the unchecked writes would do.
- The design calls the slots signalled after an acquire "the two slots at
  distance 2". The code signals `(id + 2) % 5` and `(id + 3) % 5`, which is the
  pair of the philosopher two seats to the right. Slot `(id + 2) % 5` sits next
  to the caller's right chopstick. The model follows the code.
- A comment in the code says the neighbour signal goes "right then left". The
  code signals chopstick `id` first and then `(id + 1) % 5`, and the model
  follows the code.

## Model

| member | source | states |
|---|---|---|
| `Ring.Left` | dining_phils.c:111 | the left chopstick of a philosopher is a slot of the ring |
| `Ring.Right` | dining_phils.c:112 | the right chopstick `(1+id)%5` is a slot, differs from the left one, and is `id+1` except for philosopher 4, whose right chopstick wraps to 0 |
| `Ring.Next` | dining_phils.c:139-140 | the right-hand neighbour's left chopstick is this philosopher's right chopstick |
| `Ring.PairsAtTheSeam` | dining_phils.c:111-112 | philosopher 3 uses {3,4}; philosopher 4 uses {4,0} |
| `Ring.ShareIffAdjacent` | dining_phils.c:139-140 | two philosophers share a chopstick if and only if they are the same philosopher or neighbours |
| `Conditions.BlockOnCondition` | dining_phils.c:172-185 | a chopstick index in 0..4 selects its own condition; any other index selects none |
| `Conditions.NeighborSignals` | dining_phils.c:189-212 | for id in 0..4 the table signals `[Left(id), Right(id)]`, in that order; outside 0..4, nothing |
| `Conditions.NotNeighborSignals` | dining_phils.c:216-239 | for id in 0..4 the table signals `[(id+2)%5, (id+3)%5]`; outside 0..4, nothing |
| `Conditions.NeighborSignalsReleasedPair` | dining_phils.c:189-209 | the conditions signalled after a release are exactly the two chopsticks just put down, left first |
| `Conditions.NotNeighborSignalsAvoidPair` | dining_phils.c:216-236 | the conditions signalled after an acquire are two distinct slots, neither in the pair just taken |
| `Conditions.NotNeighborIsPairTwoSeatsAway` | dining_phils.c:189-236 | the acquire-time signals equal the release-time signals of philosopher `id+2`, whose pair is disjoint from `id`'s |
| `Conditions.SignalsCoverAllButOne` | dining_phils.c:189-236 | together the two tables reach every chopstick except `(id+4)%5` |
| `Conditions.OutOfRangeSelectsNothing` | dining_phils.c:183-184 | an out-of-range id blocks on no condition and signals none |
| `Protocol.Initial` | dining_phils.c:19 | all chopsticks start free, nobody holds any, and the invariant holds |
| `Protocol.WaitSlot` | dining_phils.c:115-119 | when the pair is not wholly free, the chopstick waited on is one of the pair and is in use; it is the left one exactly when the left one is in use, so a wait on the right means the right one is in use |
| `Protocol.Decide` | dining_phils.c:115-120 | a pass acquires if and only if both chopsticks are free; otherwise it waits on one of the pair that is in use |
| `Protocol.Acquire` | dining_phils.c:123-124 | taking a wholly free pair keeps the invariant, makes the caller hold both, marks both in use, and changes no other chopstick or owner |
| `Protocol.PutDown` | dining_phils.c:143-144 | the release writes make both chopsticks free and leave every other flag as it was |
| `Protocol.Release` | dining_phils.c:143-144 | releasing a held pair keeps the invariant, frees both chopsticks, ends the caller's hold, and changes no other chopstick or owner |
| `Protocol.ExactlyOneOwner` | dining_phils.c:115-124 | under the invariant a chopstick is in use if and only if some philosopher who uses it holds its pair, and that philosopher is unique |
| `Protocol.NeighborsExclude` | dining_phils.c:115-124 | neighbours `id` and `(id+1)%5` never hold their pairs at the same time |
| `Protocol.AtMostTwoEat` | dining_phils.c:115-124 | under the invariant at most two philosophers eat at once |
| `Protocol.AcquireReleaseRoundTrip` | dining_phils.c:123-124 | from a state where the caller's pair is free, acquiring and then releasing restores the exact state |
| `Protocol.ReleaseThenReacquire` | dining_phils.c:115-124 | after a release, the same philosopher's next check succeeds and re-acquiring restores the state it released |
| `Protocol.ReleaseWithoutHoldingBreaksExclusion` | dining_phils.c:143-144 | the unchecked release writes by philosopher 0 while philosopher 1 eats break the invariant and let philosopher 0 acquire a chopstick philosopher 1 holds |
| `Monitor.ChopSticks.constructor` | dining_phils.c:19 | the array starts with five free chopsticks and the invariant holds |
| `Monitor.ChopSticks.TryGetChopSticks` | dining_phils.c:109-133 | one pass keeps the invariant. When both chopsticks were free, the new state is `Acquire` of the old and the non-neighbour conditions are returned. Otherwise the state is unchanged and the step names `WaitSlot`'s chopstick. Chopsticks outside the pair never change |
| `Monitor.ChopSticks.ReleaseChopSticks` | dining_phils.c:137-152 | for a caller holding its pair, the release keeps the invariant, the array becomes `PutDown` of the old one, the state becomes `Release` of the old, and the neighbour conditions are returned |

## Left out

- Threads, the mutex and the condition variables (`pthread_*`). Each
  critical section is one atomic step. Blocking and signalling are returned
  as data: the chopstick to wait on, and the list of conditions to signal.
- The repetition of the loop in `GetChopSticks` (dining_phils.c:115-120) is
  not modelled. Between passes only other threads change the array, so the
  model has one pass, `TryGetChopSticks`. Re-running it after a wake-up is
  left to the caller.
- `Get_Monitor` (dining_phils.c:161-168) is not modelled. It waits on a
  condition variable without owning the mutex, which is a concurrency issue
  with no sequential meaning.
- Deadlock freedom, starvation and lost wake-ups are not modelled, because
  they need a scheduler model.
- `main`, `phil_thread` with its ten-cycle loop, `usleep`, `Gen_Random` and
  all `printf` output are not modelled. They are scaffolding and I/O.
- The error messages for an out-of-range id (dining_phils.c:183-184,
  210-211, 237-238) are not modelled. The model keeps only their effect:
  nothing is selected. `GetChopSticks` and `ReleaseChopSticks` would index
  out of bounds for such an id, so the methods require an id in 0..4.
- Monitor.ChopSticks.ReleaseChopSticks: requires that the caller holds its
  pair. The C code does not check this (see above).
