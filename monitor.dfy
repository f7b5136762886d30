/**
 * The dining-philosophers monitor as an object. Every public method of the
 * source runs under the monitor lock, so each method here is one atomic
 * step on the seat array and the talking flag. A `wait()` whose guard is
 * false is modelled as the step returning without change (`granted ==
 * false`); the caller retries the same check after a `notifyAll`.
 */
module DiningMonitor {
  import opened Table

  class Monitor {
    var nbrPhilosopher: int
    var state: array<State>
    var isTalking: bool

    /**
     * The object invariant: the array has one slot per seat, the seat count
     * is a Java `int`, and the table is exclusive.
     */
    ghost predicate Valid()
      reads this, state
    {
      state.Length == nbrPhilosopher && nbrPhilosopher <= IntMax && Exclusive(state[..])
    }

    /** The abstract state the monitor guards. */
    ghost function View(): Snapshot
      reads this, state
    {
      Snapshot(state[..], isTalking)
    }

    /** Allocates the seat table and sets every seat to THINKING; nobody talks. */
    constructor (piNumberOfPhilosophers: nat)
      requires piNumberOfPhilosophers <= IntMax
      ensures Valid() && fresh(state)
      ensures nbrPhilosopher == piNumberOfPhilosophers
      ensures View() == Init(piNumberOfPhilosophers)
    {
      nbrPhilosopher := piNumberOfPhilosophers;
      var seats := new State[piNumberOfPhilosophers];
      for i := 0 to piNumberOfPhilosophers
        invariant forall k :: 0 <= k < i ==> seats[k] == Thinking
      {
        seats[i] := Thinking;
      }
      state := seats;
      isTalking := false;
      assert seats[..] == Init(piNumberOfPhilosophers).seats;
    }

    /**
     * One run of `canEat`'s check-and-set on the 0-based seat `pos`. When the
     * guard holds the seat starts eating and the call returns; otherwise the
     * caller blocks in `wait()` and nothing changes.
     */
    method CanEat(pos: int) returns (granted: bool)
      requires Valid() && 0 <= pos < nbrPhilosopher
      modifies state
      ensures Valid()
      ensures granted == MayEat(old(state[..]), pos)
      ensures granted ==> state[pos] == Eating
      ensures View() == Apply(old(View()), EatAttempt(pos))
    {
      if state[(pos + 1) % nbrPhilosopher] != Eating
         && state[(pos + (nbrPhilosopher - 1)) % nbrPhilosopher] != Eating
         && state[pos] == Hungry
      {
        state[pos] := Eating;
        granted := true;
      } else {
        granted := false;
      }
      AttemptKeepsExclusive(old(state[..]), pos);
    }

    /**
     * Philosopher `piTID` (1-based) becomes hungry and makes its first eat
     * attempt. When it is granted, neither neighbour is eating.
     */
    method PickUp(piTID: int) returns (granted: bool)
      requires Valid() && 1 <= piTID <= nbrPhilosopher
      modifies state
      ensures Valid()
      ensures granted == MayEat(old(state[..])[piTID - 1 := Hungry], piTID - 1)
      ensures state[piTID - 1] == (if granted then Eating else Hungry)
      ensures granted && 1 < nbrPhilosopher ==>
                state[Next(piTID - 1, nbrPhilosopher)] != Eating &&
                state[Prev(piTID - 1, nbrPhilosopher)] != Eating
      ensures View() == Apply(old(View()), Step.PickUp(piTID))
    {
      var pos := piTID - 1;
      IdleKeepsExclusive(state[..], pos, Hungry);
      state[pos] := Hungry;
      granted := CanEat(pos);
      if granted && 1 < nbrPhilosopher {
        ExclusiveNeighboursIdle(state[..], pos);
      }
    }

    /** Philosopher `piTID` (1-based) goes back to THINKING; no other seat changes. */
    method PutDown(piTID: int)
      requires Valid() && 1 <= piTID <= nbrPhilosopher
      modifies state
      ensures Valid()
      ensures state[piTID - 1] == Thinking
      ensures forall i :: 0 <= i < nbrPhilosopher && i != piTID - 1 ==> state[i] == old(state[i])
      ensures View() == Apply(old(View()), Step.PutDown(piTID))
    {
      var pos := piTID - 1;
      IdleKeepsExclusive(state[..], pos, Thinking);
      state[pos] := Thinking;
    }

    /**
     * `requestTalk` as the source writes it. `others[k]` is the value the
     * other philosophers left in `is_talking` while this caller was blocked
     * in its (k+1)-th `wait()`; the call is followed through at most
     * `|others|` wakeups. Because the loop body sets the flag back to `true`
     * before the guard is checked again, the call returns exactly when the
     * flag was already false, and the flag never changes.
     */
    method RequestTalk(others: seq<bool>) returns (returned: bool)
      requires Valid()
      modifies this`isTalking
      ensures Valid()
      ensures returned == !old(isTalking)
      ensures isTalking == old(isTalking)
      ensures View() == Apply(old(View()), Step.RequestTalk)
    {
      var k := 0;
      while isTalking && k < |others|
        invariant 0 <= k <= |others|
        invariant isTalking == old(isTalking)
      {
        isTalking := others[k];  // whatever the others left during wait()
        isTalking := true;       // the assignment inside the loop body
        k := k + 1;
      }
      returned := !isTalking;
    }

    /** The talking philosopher stops: the flag is cleared. */
    method EndTalk()
      requires Valid()
      modifies this`isTalking
      ensures Valid()
      ensures !isTalking
      ensures View() == Apply(old(View()), Step.EndTalk)
    {
      isTalking := false;
    }
  }

  /**
   * Five philosophers. Philosophers 1 and 3 are not neighbours and both eat.
   * Philosopher 2 sits between them and stays hungry until both have put
   * their chopsticks down; its retry then succeeds.
   */
  method FiveSeatScenario() returns (first: bool, third: bool, second: bool, retry1: bool, retry2: bool)
    ensures first && third && !second && !retry1 && retry2
  {
    var m := new Monitor(5);
    first := m.PickUp(1);
    third := m.PickUp(3);
    second := m.PickUp(2);
    m.PutDown(1);
    retry1 := m.CanEat(1);
    m.PutDown(3);
    retry2 := m.CanEat(1);
  }

  /**
   * The talking flag starts false, so `requestTalk` returns at once however
   * often the caller would be woken, and it still does after `endTalk`.
   */
  method TalkScenario(wakeups: seq<bool>) returns (first: bool, second: bool, talking: bool)
    ensures first && second && !talking
  {
    var m := new Monitor(5);
    first := m.RequestTalk(wakeups);
    m.EndTalk();
    second := m.RequestTalk(wakeups);
    talking := m.isTalking;
  }

  /**
   * Two philosophers ask to talk, and neither has ended. Both calls return
   * at once: the talking flag is never set, so nothing keeps the second
   * talker out while the first one is still talking.
   */
  method TwoTalkers(wakeups: seq<bool>) returns (first: bool, second: bool)
    ensures first && second
  {
    var m := new Monitor(5);
    first := m.RequestTalk(wakeups);
    second := m.RequestTalk(wakeups);
  }
}
