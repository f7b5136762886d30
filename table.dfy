/**
 * The seat table of the dining-philosophers monitor, as values.
 *
 * Seats are numbered 0 .. N-1 around a round table; seat `pos` shares one
 * chopstick with its neighbour `Next(pos, N)` and the other with its
 * neighbour `Prev(pos, N)`. This module holds the neighbour arithmetic, the
 * eat guard, the mutual-exclusion invariant and a value-level description of
 * every atomic step of the monitor (`Apply`), which the class in module
 * DiningMonitor is proved to implement.
 */
module Table {

  /** The three states of a philosopher, in the source's order. */
  datatype State = Thinking | Hungry | Eating

  // ---------------------------------------------------------------------
  // Neighbour arithmetic on the circular table
  // ---------------------------------------------------------------------

  /** The neighbour one step up the table, `(pos + 1) % N`. */
  function Next(pos: int, n: int): (r: int)
    requires 0 <= pos < n
    ensures 0 <= r < n
    ensures pos + 1 < n ==> r == pos + 1
    ensures pos + 1 == n ==> r == 0
  {
    (pos + 1) % n
  }

  /** The neighbour one step down the table, `(pos + (N - 1)) % N`. */
  function Prev(pos: int, n: int): (r: int)
    requires 0 <= pos < n
    ensures 0 <= r < n
    ensures 0 < pos ==> r == pos - 1
    ensures pos == 0 ==> r == n - 1
  {
    (pos + (n - 1)) % n
  }

  /** Stepping down and then up (or up and then down) returns to the seat. */
  lemma NextPrevInverse(pos: int, n: int)
    requires 0 <= pos < n
    ensures Next(Prev(pos, n), n) == pos
    ensures Prev(Next(pos, n), n) == pos
  {
  }

  /** `j` is the upper neighbour of `i` exactly when `i` is the lower neighbour of `j`. */
  lemma NeighbourSymmetric(i: int, j: int, n: int)
    requires 0 <= i < n && 0 <= j < n
    ensures Next(i, n) == j <==> Prev(j, n) == i
  {
    NextPrevInverse(i, n);
    NextPrevInverse(j, n);
  }

  /** A seat is its own neighbour only at a table with a single seat. */
  lemma SelfNeighbourOnlyAlone(pos: int, n: int)
    requires 0 <= pos < n
    ensures Next(pos, n) == pos <==> n == 1
    ensures Prev(pos, n) == pos <==> n == 1
  {
  }

  // ---------------------------------------------------------------------
  // Java's 32-bit arithmetic for the lower neighbour
  // ---------------------------------------------------------------------

  const IntMin: int := -0x8000_0000
  const IntMax: int := 0x7fff_ffff

  /** Java's `int` addition: the sum wraps around modulo 2^32. */
  function AddInt(a: int, b: int): (r: int)
    requires IntMin <= a <= IntMax && IntMin <= b <= IntMax
    ensures IntMin <= r <= IntMax
    ensures IntMin <= a + b <= IntMax ==> r == a + b
    ensures a + b > IntMax ==> r == a + b - 0x1_0000_0000
    ensures a + b < IntMin ==> r == a + b + 0x1_0000_0000
  {
    var s := a + b;
    if s > IntMax then s - 0x1_0000_0000
    else if s < IntMin then s + 0x1_0000_0000
    else s
  }

  /** Java's `%` on `int`: the remainder carries the sign of the dividend. */
  function RemInt(a: int, b: int): (r: int)
    requires 0 < b
    ensures 0 <= a ==> 0 <= r < b
    ensures a < 0 ==> -b < r <= 0
    ensures a == b * (if 0 <= a then a / b else -((-a) / b)) + r
  {
    if 0 <= a then a % b else -((-a) % b)
  }

  /**
   * The lower neighbour exactly as Monitor.java computes it, with `pos`,
   * `nbrPhilosopher - 1` and their sum all Java `int`s.
   */
  function JavaPrev(pos: int, n: int): (r: int)
    requires 0 <= pos < n <= IntMax
    ensures -n < r < n
  {
    RemInt(AddInt(pos, n - 1), n)
  }

  /**
   * The source's lower neighbour is the intended one exactly when
   * `pos + (N - 1)` does not overflow; once it does, the index is negative
   * or zero and in either case wrong.
   */
  lemma JavaPrevCorrectIff(pos: int, n: int)
    requires 0 <= pos < n <= IntMax
    ensures JavaPrev(pos, n) == Prev(pos, n) <==> pos + (n - 1) <= IntMax
    ensures pos + (n - 1) > IntMax ==> JavaPrev(pos, n) <= 0
  {
    if pos + (n - 1) > IntMax {
      assert AddInt(pos, n - 1) < 0;
      assert 2 <= pos && Prev(pos, n) == pos - 1;
    }
  }

  /** Every table of at most 2^30 seats is safe from the overflow. */
  lemma JavaPrevAgreesOnSmallTables(pos: int, n: int)
    requires 0 <= pos < n <= 0x4000_0000
    ensures JavaPrev(pos, n) == Prev(pos, n)
  {
    JavaPrevCorrectIff(pos, n);
  }

  /** With 2^30 + 1 seats, seat 2^30 gets a negative lower neighbour. */
  lemma JavaPrevNegativeIndex()
    ensures JavaPrev(0x4000_0000, 0x4000_0001) == -0x3fff_ffff
    ensures Prev(0x4000_0000, 0x4000_0001) == 0x3fff_ffff
  {
  }

  /**
   * With 2^31 - 1 seats, seat 3's sum wraps to -2^31 + 1, whose remainder
   * is 0: a valid index, but the wrong seat.
   */
  lemma JavaPrevZeroIndex()
    ensures JavaPrev(3, IntMax) == 0
    ensures Prev(3, IntMax) == 2
  {
  }

  // ---------------------------------------------------------------------
  // The eat guard and mutual exclusion
  // ---------------------------------------------------------------------

  /** The guard of `canEat`: both neighbours are not eating and the seat is hungry. */
  predicate MayEat(t: seq<State>, pos: int)
    requires 0 <= pos < |t|
  {
    t[Next(pos, |t|)] != Eating && t[Prev(pos, |t|)] != Eating && t[pos] == Hungry
  }

  /**
   * On every table small enough for the source's 32-bit index to be right,
   * `MayEat` is the guard exactly as the source evaluates it.
   */
  lemma MayEatAsWritten(t: seq<State>, pos: int)
    requires 0 <= pos < |t| <= 0x4000_0000
    ensures 0 <= JavaPrev(pos, |t|) < |t|
    ensures MayEat(t, pos) <==>
              t[(pos + 1) % |t|] != Eating && t[JavaPrev(pos, |t|)] != Eating && t[pos] == Hungry
  {
    JavaPrevAgreesOnSmallTables(pos, |t|);
  }

  /** No two distinct adjacent seats are both eating. */
  predicate Exclusive(t: seq<State>)
  {
    forall i :: 0 <= i < |t| && Next(i, |t|) != i ==> !(t[i] == Eating && t[Next(i, |t|)] == Eating)
  }

  /** In an exclusive table an eating seat has no eating neighbour on either side. */
  lemma ExclusiveNeighboursIdle(t: seq<State>, pos: int)
    requires Exclusive(t) && 0 <= pos < |t| && 1 < |t|
    requires t[pos] == Eating
    ensures t[Next(pos, |t|)] != Eating
    ensures t[Prev(pos, |t|)] != Eating
  {
    var p := Prev(pos, |t|);
    NextPrevInverse(pos, |t|);
    assert Next(p, |t|) == pos;
  }

  /**
   * One run of the body of `canEat`'s loop: the check-and-set. When the
   * guard is false the source calls `wait()`, which changes nothing.
   */
  function Attempt(t: seq<State>, pos: int): (r: seq<State>)
    requires 0 <= pos < |t|
    ensures |r| == |t|
    ensures forall i :: 0 <= i < |t| && i != pos ==> r[i] == t[i]
    ensures r[pos] == Eating <==> MayEat(t, pos) || t[pos] == Eating
    ensures r == t <==> !MayEat(t, pos)
  {
    if MayEat(t, pos) then t[pos := Eating] else t
  }

  /** A granted attempt never puts two adjacent seats at the table together. */
  lemma AttemptKeepsExclusive(t: seq<State>, pos: int)
    requires 0 <= pos < |t|
    requires Exclusive(t)
    ensures Exclusive(Attempt(t, pos))
  {
    var n := |t|;
    var r := Attempt(t, pos);
    if MayEat(t, pos) {
      forall i | 0 <= i < n && Next(i, n) != i
        ensures !(r[i] == Eating && r[Next(i, n)] == Eating)
      {
        if Next(i, n) == pos {
          NeighbourSymmetric(i, pos, n);
        }
      }
    }
  }

  /**
   * On an exclusive table of 2^31 - 1 seats where seat 2 eats and seat 3 is
   * hungry, the guard as the source evaluates it (with the 32-bit lower
   * neighbour of `JavaPrevZeroIndex`) lets seat 3 eat, and granting it
   * seats two neighbours together. `MayEat` refuses.
   */
  lemma AsWrittenGuardBreaksExclusion()
    ensures var t := seq(IntMax, i => if i == 2 then Eating else if i == 3 then Hungry else Thinking);
            && t[(3 + 1) % |t|] != Eating && t[JavaPrev(3, |t|)] != Eating && t[3] == Hungry
            && Exclusive(t)
            && !MayEat(t, 3)
            && !Exclusive(t[3 := Eating])
  {
    var t := seq(IntMax, i => if i == 2 then Eating else if i == 3 then Hungry else Thinking);
    JavaPrevZeroIndex();
    forall i | 0 <= i < |t| && Next(i, |t|) != i
      ensures !(t[i] == Eating && t[Next(i, |t|)] == Eating)
    {
      if i == 2 {
        assert Next(i, |t|) == 3;
      }
    }
    assert Next(2, |t|) == 3;
    assert t[3 := Eating][2] == Eating && t[3 := Eating][3] == Eating;
  }

  /** Writing a non-eating state into one seat keeps the table exclusive. */
  lemma IdleKeepsExclusive(t: seq<State>, pos: int, v: State)
    requires 0 <= pos < |t|
    requires Exclusive(t) && v != Eating
    ensures Exclusive(t[pos := v])
  {
  }

  /**
   * A seat only becomes eating through an attempt on that very seat, and
   * only when it was hungry and the guard held: there is no direct
   * THINKING to EATING transition.
   */
  lemma EatingOnlyFromHungry(t: seq<State>, pos: int, i: int)
    requires 0 <= pos < |t| && 0 <= i < |t|
    requires t[i] != Eating && Attempt(t, pos)[i] == Eating
    ensures i == pos && t[pos] == Hungry && MayEat(t, pos)
  {
  }

  // ---------------------------------------------------------------------
  // The monitor's state and its atomic steps
  // ---------------------------------------------------------------------

  /** The whole state the monitor guards: the seat table and `is_talking`. */
  datatype Snapshot = Snapshot(seats: seq<State>, talking: bool)

  /**
   * The atomic steps a caller can take. `PickUp` and `PutDown` carry the
   * source's 1-based philosopher id; `EatAttempt` is one run of `canEat`'s
   * check, with its 0-based position: the first run inside `pickUp`, a
   * retry after a `notifyAll`, or a direct call of the public `canEat`.
   */
  datatype Step = PickUp(id: int) | EatAttempt(pos: int) | PutDown(id: int) | RequestTalk | EndTalk

  /** The index bounds the source relies on for each step (it does not check them). */
  predicate Allowed(n: int, s: Step)
  {
    match s
    case PickUp(id) => 1 <= id <= n
    case EatAttempt(pos) => 0 <= pos < n
    case PutDown(id) => 1 <= id <= n
    case RequestTalk => true
    case EndTalk => true
  }

  /** The state right after construction with `n` seats. */
  function Init(n: nat): (r: Snapshot)
    ensures |r.seats| == n
    ensures forall i :: 0 <= i < n ==> r.seats[i] == Thinking
    ensures !r.talking
  {
    Snapshot(seq(n, _ => Thinking), false)
  }

  /**
   * The effect of one atomic step. `RequestTalk` changes nothing: from
   * `talking == false` the call returns at once without entering its loop.
   * The loop, and the wake-up in it that writes `true`, can only be entered
   * when `talking` is already true, which no reachable state has (see
   * `ReachableIsSafe`), so no step models that wake-up.
   */
  function Apply(m: Snapshot, s: Step): (r: Snapshot)
    requires Allowed(|m.seats|, s)
    ensures |r.seats| == |m.seats|
  {
    match s
    case PickUp(id) => m.(seats := Attempt(m.seats[id - 1 := Hungry], id - 1))
    case EatAttempt(pos) => m.(seats := Attempt(m.seats, pos))
    case PutDown(id) => m.(seats := m.seats[id - 1 := Thinking])
    case RequestTalk => m
    case EndTalk => m.(talking := false)
  }

  /** The seat a step works on, if it works on one. */
  function SeatOf(s: Step): int
  {
    match s
    case PickUp(id) => id - 1
    case EatAttempt(pos) => pos
    case PutDown(id) => id - 1
    case RequestTalk => -1
    case EndTalk => -1
  }

  /**
   * Each step changes at most the seat it names: every other seat keeps its
   * state, and only `EndTalk` touches `talking`.
   */
  lemma StepFrame(m: Snapshot, s: Step, i: int)
    requires Allowed(|m.seats|, s)
    requires 0 <= i < |m.seats| && i != SeatOf(s)
    ensures Apply(m, s).seats[i] == m.seats[i]
    ensures !s.EndTalk? ==> Apply(m, s).talking == m.talking
  {
  }

  /** What a step does to the seat it names. */
  lemma StepOnOwnSeat(m: Snapshot, s: Step)
    requires Allowed(|m.seats|, s) && (s.PickUp? || s.PutDown?)
    ensures s.PutDown? ==> Apply(m, s).seats[s.id - 1] == Thinking
    ensures s.PickUp? ==> Apply(m, s).seats[s.id - 1] in {Hungry, Eating}
    ensures s.PickUp? ==>
              (Apply(m, s).seats[s.id - 1] == Eating <==> MayEat(m.seats[s.id - 1 := Hungry], s.id - 1))
  {
  }

  /**
   * A seat that was not eating is eating after a step only when the step was
   * a grant to that seat out of HUNGRY: either `pickUp`, which marks the seat
   * hungry before the check, or a retried check on an already hungry seat.
   */
  lemma GrantPassesThroughHungry(m: Snapshot, s: Step, i: int)
    requires Allowed(|m.seats|, s) && 0 <= i < |m.seats|
    requires m.seats[i] != Eating && Apply(m, s).seats[i] == Eating
    ensures s.PickUp? || s.EatAttempt?
    ensures i == SeatOf(s)
    ensures s.PickUp? ==> MayEat(m.seats[i := Hungry], i)
    ensures s.EatAttempt? ==> m.seats[i] == Hungry && MayEat(m.seats, i)
  {
    match s
    case PickUp(id) =>
      EatingOnlyFromHungry(m.seats[id - 1 := Hungry], id - 1, i);
    case EatAttempt(pos) =>
      EatingOnlyFromHungry(m.seats, pos, i);
    case PutDown(id) =>
    case RequestTalk =>
    case EndTalk =>
  }

  /** `putDown` is idempotent. */
  lemma PutDownIdempotent(m: Snapshot, id: int)
    requires 1 <= id <= |m.seats|
    ensures Apply(Apply(m, PutDown(id)), PutDown(id)) == Apply(m, PutDown(id))
  {
  }

  /** `pickUp` followed by `putDown` leaves the seat thinking and every other seat as it was. */
  lemma PickUpThenPutDown(m: Snapshot, id: int)
    requires 1 <= id <= |m.seats|
    ensures Apply(Apply(m, PickUp(id)), PutDown(id)) == m.(seats := m.seats[id - 1 := Thinking])
  {
    var after := Apply(Apply(m, PickUp(id)), PutDown(id)).seats;
    var want := m.seats[id - 1 := Thinking];
    assert |after| == |want|;
    forall i | 0 <= i < |want| ensures after[i] == want[i] {
      if i != id - 1 {
        StepFrame(m, PickUp(id), i);
      }
    }
  }

  // ---------------------------------------------------------------------
  // Reachable states
  // ---------------------------------------------------------------------

  /** The invariant of every reachable state. */
  predicate Safe(m: Snapshot)
  {
    Exclusive(m.seats) && !m.talking
  }

  /** Every step keeps the invariant. */
  lemma ApplyKeepsSafe(m: Snapshot, s: Step)
    requires Allowed(|m.seats|, s) && Safe(m)
    ensures Safe(Apply(m, s))
  {
    match s
    case PickUp(id) =>
      IdleKeepsExclusive(m.seats, id - 1, Hungry);
      AttemptKeepsExclusive(m.seats[id - 1 := Hungry], id - 1);
    case EatAttempt(pos) =>
      AttemptKeepsExclusive(m.seats, pos);
    case PutDown(id) =>
      IdleKeepsExclusive(m.seats, id - 1, Thinking);
    case RequestTalk =>
    case EndTalk =>
  }

  /** Every step of `steps` is within the bounds of an `n`-seat table. */
  predicate AllAllowed(n: int, steps: seq<Step>)
  {
    forall k :: 0 <= k < |steps| ==> Allowed(n, steps[k])
  }

  /** The state after running `steps` one after another from `m`. */
  function Run(m: Snapshot, steps: seq<Step>): (r: Snapshot)
    requires AllAllowed(|m.seats|, steps)
    ensures |r.seats| == |m.seats|
    decreases |steps|
  {
    if steps == [] then m else Run(Apply(m, steps[0]), steps[1..])
  }

  /** Running any sequence of steps keeps the invariant. */
  lemma {:induction false} RunKeepsSafe(m: Snapshot, steps: seq<Step>)
    requires AllAllowed(|m.seats|, steps) && Safe(m)
    ensures Safe(Run(m, steps))
    decreases |steps|
  {
    if steps != [] {
      ApplyKeepsSafe(m, steps[0]);
      RunKeepsSafe(Apply(m, steps[0]), steps[1..]);
    }
  }

  /**
   * In every state reachable from construction, no two distinct adjacent
   * seats are both eating and nobody is talking.
   */
  lemma ReachableIsSafe(n: nat, steps: seq<Step>)
    requires AllAllowed(n, steps)
    ensures |Run(Init(n), steps).seats| == n
    ensures Exclusive(Run(Init(n), steps).seats)
    ensures !Run(Init(n), steps).talking
  {
    RunKeepsSafe(Init(n), steps);
  }
}
