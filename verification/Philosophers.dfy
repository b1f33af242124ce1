/**
 * The shared table of the dining philosophers, updated in place
 * (Userland/SampleCodeModule/diningPhilosophers.c).  Each method is what one
 * process does between mutexLock(mutex) and mutexUnlock(mutex).
 */
module Philosophers {
  import opened PhilosophersSpec

  class Table {
    const state: array<Mood>
    var numberOfPhilosophers: nat
    /** Whether the value of S[i] is 1. */
    const open: array<bool>

    constructor ()
      ensures Valid() && fresh(state) && fresh(open) && Abs() == Initial().desk
    {
      state := new Mood[N](_ => Eating);
      open := new bool[N](_ => false);
      numberOfPhilosophers := 0;
    }

    ghost predicate Valid()
      reads this
    {
      numberOfPhilosophers <= N && state.Length == N && open.Length == N
    }

    ghost function Abs(): (d: Desk)
      requires Valid()
      reads this, state, open
      ensures Wf(d)
    {
      Desk(numberOfPhilosophers, state[..], open[..])
    }

    method Test(phnum: nat)
      requires Valid() && phnum < numberOfPhilosophers
      modifies state, open
      ensures Valid() && Abs() == PhilosophersSpec.Test(old(Abs()), phnum)
    {
      var left := (phnum + numberOfPhilosophers - 1) % numberOfPhilosophers;
      var right := (phnum + 1) % numberOfPhilosophers;
      if state[phnum] == Hungry && state[left] != Eating && state[right] != Eating {
        state[phnum] := Eating;
        open[phnum] := true;
      }
    }

    /** "take_fork", up to the wait for S[phnum]. */
    method TakeFork(phnum: nat)
      requires Valid() && phnum < numberOfPhilosophers
      modifies state, open
      ensures Valid() && Abs() == Take(old(Abs()), phnum)
    {
      state[phnum] := Hungry;
      Test(phnum);
    }

    /** "put_fork" */
    method PutFork(phnum: nat)
      requires Valid() && phnum < numberOfPhilosophers
      modifies state, open
      ensures Valid() && Abs() == Put(old(Abs()), phnum)
    {
      Neighbours(phnum, numberOfPhilosophers);
      state[phnum] := Thinking;
      Test((phnum + numberOfPhilosophers - 1) % numberOfPhilosophers);
      Test((phnum + 1) % numberOfPhilosophers);
    }

    /** "addPhilosopher": a new mutex for the seat, locked at once. */
    method AddPhilosopher()
      requires Valid() && numberOfPhilosophers < N
      modifies this, open
      ensures Valid() && Abs() == Add(old(Abs()))
    {
      open[numberOfPhilosophers] := true;
      open[numberOfPhilosophers] := false;
      numberOfPhilosophers := numberOfPhilosophers + 1;
    }
  }
}
