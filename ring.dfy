/** The ring of five chopsticks and the pair of slots each philosopher needs.
    Philosopher `id` sits between slot `id` (its left chopstick) and slot
    `(id + 1) % 5` (its right chopstick). */
module Ring {

  /** Number of philosophers, and of chopsticks, at the table. */
  const N: int := 5

  predicate IsPhilosopher(id: int) { 0 <= id < N }

  predicate IsSlot(s: int) { 0 <= s < N }

  /** The left chopstick of philosopher `id`. */
  function Left(id: int): (l: int)
    requires IsPhilosopher(id)
    ensures IsSlot(l)
  {
    id
  }

  /** The right chopstick of philosopher `id`, computed as the C code does,
      `(1 + id) % 5`; for a non-negative operand C's `%` agrees with Dafny's. */
  function Right(id: int): (r: int)
    requires IsPhilosopher(id)
    ensures IsSlot(r)
    ensures r != Left(id)
    ensures r == if id == N - 1 then 0 else id + 1
  {
    (1 + id) % N
  }

  /** Slot `s` is one of the two chopsticks philosopher `id` eats with. */
  predicate Uses(id: int, s: int)
    requires IsPhilosopher(id)
  {
    s == Left(id) || s == Right(id)
  }

  /** The philosopher on the right of `id`, who shares `id`'s right chopstick. */
  function Next(id: int): (n: int)
    requires IsPhilosopher(id)
    ensures IsPhilosopher(n)
    ensures n != id
    ensures Left(n) == Right(id)
  {
    (id + 1) % N
  }

  /** Ring correctness at the wrap-around: philosopher 3 uses {3, 4} and
      philosopher 4 uses {4, 0}. */
  lemma PairsAtTheSeam()
    ensures Left(3) == 3 && Right(3) == 4
    ensures Left(4) == 4 && Right(4) == 0
    ensures forall s :: IsSlot(s) ==> (Uses(4, s) <==> s == 4 || s == 0)
  {
  }

  /** Two philosophers share a chopstick exactly when they are the same
      philosopher or sit next to each other. */
  lemma ShareIffAdjacent(p: int, q: int)
    requires IsPhilosopher(p) && IsPhilosopher(q)
    ensures (exists s :: IsSlot(s) && Uses(p, s) && Uses(q, s))
        <==> (p == q || q == Next(p) || p == Next(q))
  {
    if p == q {
      assert Uses(p, Left(p)) && Uses(q, Left(p));
    } else if q == Next(p) {
      assert Uses(p, Right(p)) && Uses(q, Right(p));
    } else if p == Next(q) {
      assert Uses(q, Right(q)) && Uses(p, Right(q));
    }
  }
}
