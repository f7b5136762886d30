# Dining-philosophers monitor

A Dafny model of the `Monitor` class of a Java dining-philosophers program
(`Monitor.java`). The monitor owns a table of seats, each THINKING, HUNGRY or
EATING, and a flag `is_talking`. A philosopher calls `pickUp(id)` to become
hungry and try to eat. It eats only when neither neighbour at the round table
is eating. It calls `putDown(id)` to go back to thinking. `requestTalk` and
`endTalk` manage the speaking flag.

Every public method of the source is `synchronized`, so each runs atomically
under the monitor lock. The model turns each method into one atomic step:

- `table.dfy`, module `Table`: the seat state, the neighbour arithmetic
  `(pos+1)%N` and `(pos+(N-1))%N`, the eat guard, the mutual-exclusion
  invariant `Exclusive`, and a value-level description of every step
  (`Apply`) with lemmas about it. It also holds a model of Java's 32-bit `int`
  arithmetic for the lower-neighbour index; see "## Findings".
- `monitor.dfy`, module `DiningMonitor`: class `Monitor` with the source's
  fields (`nbrPhilosopher`, `state` as an `array<State>`, `isTalking`). It has a
  constructor that fills the array with a `for` loop, and one method per
  synchronized method. Each method requires and ensures `Valid()`, the
  mutual-exclusion invariant, and is proved to move the abstract state
  exactly as `Apply` says. Three client methods replay a five-seat scenario
  and two talk scenarios using only the contracts.

A `wait()` whose guard is false is modelled as a step that returns
`granted == false` and changes nothing. The caller later retries the same
check (`CanEat`, the `EatAttempt` step) after a `notifyAll`.

`requestTalk` is modelled as written (Monitor.java:113-124). The assignment
`is_talking = true` sits inside the `while (is_talking)` loop body, after the
`wait()`. So the call returns at once when the flag is false and never
returns when it is true: the body writes `true` back before the guard is
checked again. The flag starts false (line 39), and its only write of
`true` (line 123) is inside a loop that is entered only when the flag is
already true. So the flag is false in every reachable state, and
`requestTalk` never grants anything exclusive. The comment on `requestTalk` (Monitor.java:107-109)
promises one talker at a time, which the textbook monitor pattern gives
(wait while the flag is held, then set it once before returning). The code
does not do that, and the model follows the code: `TwoTalkers` shows two
philosophers both being let in to talk. `RequestTalk` takes the values other philosophers may
leave in the flag during each `wait()`, and up to that many wakeups are
followed. Its contract shows that none of them changes the outcome.

## Model

| member | source | states |
|---|---|---|
| Table.Next | Monitor.java:62 | the upper neighbour `(pos+1)%N` lies in `[0, N)`: it is `pos+1`, or `0` for the last seat |
| Table.Prev | Monitor.java:63 | the lower neighbour `(pos+(N-1))%N` lies in `[0, N)`: it is `pos-1`, or `N-1` for seat 0 |
| Table.NextPrevInverse | Monitor.java:62-63 | stepping down then up, or up then down, returns to the same seat |
| Table.NeighbourSymmetric | Monitor.java:62-63 | `j` is the upper neighbour of `i` exactly when `i` is the lower neighbour of `j` |
| Table.SelfNeighbourOnlyAlone | Monitor.java:62-63 | a seat is its own neighbour (on either side) exactly when the table has one seat |
| Table.AddInt | Monitor.java:63 | Java `int` addition: the result is a 32-bit value, equal to the sum when it fits and the sum minus 2^32 on positive overflow |
| Table.RemInt | Monitor.java:63 | Java `%` by a positive divisor: in `[0, b)` for a non-negative dividend, in `(-b, 0]` for a negative one |
| Table.JavaPrev | Monitor.java:63 | the lower neighbour exactly as the source computes it in 32-bit `int`: always in `(-N, N)`, so it can be negative |
| Table.JavaPrevCorrectIff | Monitor.java:63 | the source's 32-bit lower neighbour equals the intended one exactly when `pos+(N-1)` fits in an `int`; otherwise it is at most 0 |
| Table.JavaPrevAgreesOnSmallTables | Monitor.java:63 | for tables of at most 2^30 seats the 32-bit index is the intended one |
| Table.JavaPrevNegativeIndex | Monitor.java:63 | with 2^30+1 seats, seat 2^30 gets lower neighbour -(2^30-1) instead of 2^30-1 |
| Table.JavaPrevZeroIndex | Monitor.java:63 | with 2^31-1 seats, seat 3 gets lower neighbour 0, a valid index, instead of 2 |
| Table.AsWrittenGuardBreaksExclusion | Monitor.java:62-65 | on an exclusive table of 2^31-1 seats with seat 2 EATING and seat 3 HUNGRY, the guard as the source evaluates it holds for seat 3 while `MayEat` does not, and granting it leaves two adjacent seats EATING |
| Table.MayEatAsWritten | Monitor.java:62-64 | on tables of at most 2^30 seats, the guard `MayEat` (upper neighbour not EATING, lower neighbour not EATING, seat HUNGRY) is exactly the source's condition with its 32-bit index, and that index is in range |
| Table.ExclusiveNeighboursIdle | Monitor.java:62-65 | in an exclusive table of two or more seats, an eating seat has no eating neighbour on either side |
| Table.Attempt | Monitor.java:62-69 | one eat attempt changes no seat but `pos`; `pos` is EATING afterwards iff the guard held or it was already EATING; the table is unchanged iff the guard failed (the `wait()` branch) |
| Table.AttemptKeepsExclusive | Monitor.java:62-65 | an eat attempt keeps "no two distinct adjacent seats both EATING" |
| Table.IdleKeepsExclusive | Monitor.java:88-103 | writing HUNGRY or THINKING into a seat, as `pickUp` and `putDown` do, keeps the table exclusive |
| Table.EatingOnlyFromHungry | Monitor.java:62-65 | a seat that becomes EATING in an attempt is the attempted seat, was HUNGRY, and passed the guard |
| Table.Init | Monitor.java:30-39 | the constructed state has `n` seats, all THINKING, and `is_talking` false |
| Table.Apply | Monitor.java:48-135 | no step changes the number of seats |
| Table.Run | Monitor.java:48-135 | no sequence of steps changes the number of seats |
| Table.StepFrame | Monitor.java:65-133 | each step leaves every seat but its own unchanged, and only `endTalk` touches `is_talking` |
| Table.StepOnOwnSeat | Monitor.java:88-103 | `putDown` leaves its seat THINKING; `pickUp` leaves its seat HUNGRY or EATING, and EATING exactly when the guard holds on the table with the seat marked HUNGRY |
| Table.GrantPassesThroughHungry | Monitor.java:62-90 | a seat that was not EATING is EATING after a step only if the step was `pickUp` or an eat attempt on that seat, with the seat HUNGRY when the guard was checked; there is no THINKING to EATING step |
| Table.PutDownIdempotent | Monitor.java:102-103 | `putDown` twice is the same as `putDown` once |
| Table.PickUpThenPutDown | Monitor.java:88-103 | `pickUp(id)` then `putDown(id)` leaves seat `id-1` THINKING and all other state as before |
| Table.ApplyKeepsSafe | Monitor.java:62-133 | every step keeps the table exclusive and `is_talking` false |
| Table.RunKeepsSafe | Monitor.java:62-133 | any sequence of steps keeps the table exclusive and `is_talking` false |
| Table.ReachableIsSafe | Monitor.java:30-135 | in every state reachable from construction the table has `n` seats, no two distinct adjacent seats are both EATING, and `is_talking` is false |
| DiningMonitor.Monitor.constructor | Monitor.java:28-40 | for any Java `int` count `n >= 0`, the array has `n` slots, all THINKING, `is_talking` is false, and the invariant holds |
| DiningMonitor.Monitor.CanEat | Monitor.java:48-76 | keeps the invariant; grants exactly when both neighbours are not EATING and the seat is HUNGRY; the new state is one eat attempt on the old one |
| DiningMonitor.Monitor.PickUp | Monitor.java:82-91 | marks the seat HUNGRY and makes one attempt; keeps the invariant; on a grant neither neighbour is EATING; otherwise the seat stays HUNGRY |
| DiningMonitor.Monitor.PutDown | Monitor.java:97-105 | sets the seat to THINKING, changes no other seat, and keeps the invariant |
| DiningMonitor.Monitor.RequestTalk | Monitor.java:111-125 | returns exactly when `is_talking` was false, whatever other philosophers write during each `wait()`; never changes `is_talking`; keeps the invariant |
| DiningMonitor.Monitor.EndTalk | Monitor.java:131-135 | sets `is_talking` to false, keeps the invariant and changes nothing else |
| DiningMonitor.FiveSeatScenario | Monitor.java:62-105 | with five seats, philosophers 1 and 3 both eat, 2 cannot, 2 still cannot after 1 puts down, and 2 eats once 3 has put down too |
| DiningMonitor.TwoTalkers | Monitor.java:107-124 | two `requestTalk` calls with no `endTalk` between them both return, so the one-talker-at-a-time promise of the comment does not hold |
| DiningMonitor.TalkScenario | Monitor.java:111-135 | `requestTalk` returns at once on a new monitor and again after `endTalk`, and the flag stays false |

## Left out

- `synchronized`, `wait()` and `notifyAll()`: each method is one atomic step. A blocked `wait()` returns `granted == false` with no change, and the caller retries.
- Liveness, fairness and starvation: these depend on thread scheduling, not on the state machine.
- The `InterruptedException` handlers: the stack trace in `canEat`, and the message, the report to `DiningPhilosophers.reportException` and `System.exit(1)` in `requestTalk`. These are I/O, process exit, and a class that is not part of this model.
- DiningMonitor.Monitor.CanEat: models one run of the `while (true)` loop body, not the loop. Other threads change the table between wakeups, so retries are separate `EatAttempt` steps. It, `PickUp` and `Table.Apply` use the corrected lower neighbour `Table.Prev` over unbounded integers. The seat count is kept within Java's `int` range (at most 2^31-1), but for more than 2^30 seats the source's lower neighbour is wrong for some seats, and there the class does not behave as the source does. The source either throws (negative index) or silently checks seat 0 instead of seat `pos-1` (zero index), and can then seat two neighbours together. The class checks the right seat. See "## Findings"; `Table.MayEatAsWritten` shows the two agree up to 2^30 seats.
- DiningMonitor.Monitor.RequestTalk: follows at most `|others|` wakeups, because Dafny methods must terminate. Its contract shows that more wakeups would not let a caller out once the flag is true.
- Out-of-range ids and positions throw `ArrayIndexOutOfBoundsException` in the source. With `N == 0`, `canEat` throws `ArithmeticException` at line 62 instead, because of `% 0`. Here both are excluded by `requires` clauses (`1 <= id <= N`, `0 <= pos < N`). `N == 0` is allowed at construction, as in the source.
- A negative seat count throws `NegativeArraySizeException` in the source. The constructor takes a `nat` instead.
- Misuse is not checked, as in the source: `putDown` on a seat that is not eating, or `pickUp` on a seat that is already eating. Both are modelled as written.

## Findings

| source | as written | input that shows it | evidently intended | confidence | as-written member | corrected member |
|---|---|---|---|---|---|---|
| Monitor.java:63 | `(pos + (nbrPhilosopher - 1)) % nbrPhilosopher` is computed in 32-bit `int`, so the sum overflows once `pos + N - 1 > 2^31 - 1` | `N = 2^30 + 1`, `pickUp(2^30 + 1)`: `pos = 2^30`, the sum wraps to `-2^31`, and the index is `-(2^30 - 1)`, so the access throws (`Table.JavaPrevNegativeIndex`). `N = 2^31 - 1`, seat 2 EATING, `pickUp(4)`: `pos = 3`, the sum wraps to `-2^31 + 1`, the index is `0`, the guard checks seat 0 instead of seat 2, and seat 3 eats beside seat 2 (`Table.JavaPrevZeroIndex`, `Table.AsWrittenGuardBreaksExclusion`). `Table.JavaPrevCorrectIff` gives every wrong input | the lower neighbour `(pos + N - 1) mod N`: `2^30 - 1` and `2` in these cases | low: needs more than 2^30 philosophers; not executed | Table.JavaPrev | Table.Prev |
