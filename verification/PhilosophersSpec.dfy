/**
 * The dining philosophers of the user land (Userland/SampleCodeModule/diningPhilosophers.c).
 * Programs of the user land are preempted anywhere, so every lock, unlock, test
 * and assignment is a step of its own, and steps of all processes interleave freely.
 */
module PhilosophersSpec {

  const N: nat := 20

  /** EATING is 0: what a table of static storage holds before anybody has sat down. */
  datatype Mood = Eating | Hungry | Thinking

  /** The shared variables: numberOfPhilosophers, state, and the value of each S[i]. */
  datatype Desk = Desk(n: nat, state: seq<Mood>, open: seq<bool>)

  predicate Wf(d: Desk) {
    d.n <= N && |d.state| == N && |d.open| == N
  }

  /** LEFT */
  function Left(i: nat, n: nat): nat
    requires 0 < n
  {
    (i + n - 1) % n
  }

  /** RIGHT */
  function Right(i: nat, n: nat): nat
    requires 0 < n
  {
    (i + 1) % n
  }

  lemma Wrap(r: nat, n: nat)
    requires r < n
    ensures r % n == r && (r + n) % n == r
  {
  }

  /** Who is left of whom is who is right of whom, and both sit at the table. */
  lemma Neighbours(i: nat, n: nat)
    requires i < n
    ensures Left(i, n) == if i == 0 then n - 1 else i - 1
    ensures Right(i, n) == if i == n - 1 then 0 else i + 1
    ensures Right(Left(i, n), n) == i && Left(Right(i, n), n) == i
  {
    var left := if i == 0 then n - 1 else i - 1;
    var right := if i == n - 1 then 0 else i + 1;
    Wrap(left, n);
    Wrap(right, n);
    Wrap(i, n);
    assert Left(i, n) == left;
    assert Right(i, n) == right;
    assert Right(left, n) == i;
    assert Left(right, n) == i;
  }

  predicate CanEat(d: Desk, i: nat)
    requires Wf(d) && i < d.n
  {
    && d.state[i] == Hungry
    && (Neighbours(i, d.n); d.state[Left(i, d.n)] != Eating && d.state[Right(i, d.n)] != Eating)
  }

  function Feel(d: Desk, i: nat, mood: Mood): (r: Desk)
    requires Wf(d) && i < N
    ensures Wf(r)
  {
    d.(state := d.state[i := mood])
  }

  /** The unlock of S[i]. */
  function Serve(d: Desk, i: nat): (r: Desk)
    requires Wf(d) && i < N
    ensures Wf(r)
  {
    d.(open := d.open[i := true])
  }

  /** "test" */
  function Test(d: Desk, i: nat): (r: Desk)
    requires Wf(d) && i < d.n
    ensures Wf(r) && r.n == d.n
  {
    if CanEat(d, i) then Serve(Feel(d, i, Eating), i) else d
  }

  /** What "take_fork" does under the mutex. */
  function Take(d: Desk, i: nat): (r: Desk)
    requires Wf(d) && i < d.n
    ensures Wf(r) && r.n == d.n
  {
    Test(Feel(d, i, Hungry), i)
  }

  /** What "put_fork" does under the mutex. */
  function Put(d: Desk, i: nat): (r: Desk)
    requires Wf(d) && i < d.n
    ensures Wf(r) && r.n == d.n
  {
    Neighbours(i, d.n);
    Test(Test(Feel(d, i, Thinking), Left(i, d.n)), Right(i, d.n))
  }

  /** What "addPhilosopher" does: S[n] is created open and locked at once, then there is one seat more. */
  function Add(d: Desk): (r: Desk)
    requires Wf(d) && d.n < N
    ensures Wf(r)
  {
    d.(n := d.n + 1, open := d.open[d.n := false])
  }

  // ---------------------------------------------------------------- the protocol

  /** Where a philosopher is in its program; the lock or the statement named is the next one. */
  datatype Place =
    | Away
    | Arriving        // mutexLock(mutex)
    | Looking         // numberOfPhilosophers < i + 1
    | Admitted        // mutexUnlock(mutex)
    | Leaving         // mutexUnlock(mutex), exitProcess()
    | Asking          // take_fork: mutexLock(mutex)
    | Claiming        // state[i] = HUNGRY
    | Testing         // test(i)
    | Serving         // in test(i): mutexUnlock(S[i])
    | Releasing       // mutexUnlock(mutex)
    | Awaiting        // mutexLock(S[i])
    | Dining          // put_fork: mutexLock(mutex)
    | Dropping        // state[i] = THINKING
    | TestingLeft     // test(LEFT)
    | ServingLeft     // in test(LEFT): mutexUnlock(S[LEFT])
    | TestingRight    // test(RIGHT)
    | ServingRight    // in test(RIGHT): mutexUnlock(S[RIGHT])
    | Closing         // mutexUnlock(mutex)

  /** Where the program that seats philosophers is in "addPhilosopher". */
  datatype Adding =
    | Idle            // mutexLock(mutex)
    | Making          // S[n] = mutexInit("")
    | Holding         // mutexLock(S[n])
    | Seating         // execProcess(philosopher, n, ...)
    | Counting        // numberOfPhilosophers++
    | Unlocking       // mutexUnlock(mutex)

  datatype Actor = Seat(i: nat) | Adder

  /** "granted" records who was set to EATING by test and has not been set to THINKING since. */
  datatype System = System(desk: Desk, mutexOpen: bool, places: seq<Place>, adder: Adding, granted: set<nat>)

  predicate Shaped(s: System) {
    Wf(s.desk) && |s.places| == N
  }

  /**
   * A lock step is possible while the value is not 0 (MutexSpec.LockWhileOpen: then its caller can
   * run and gets the lock, whoever unlocked); LEFT and RIGHT divide by the number of philosophers.
   */
  predicate Enabled(s: System, a: Actor)
    requires Shaped(s)
  {
    match a
    case Adder =>
      && (s.adder == Idle ==> s.mutexOpen)
      && (s.adder == Holding ==> s.desk.n < N && s.desk.open[s.desk.n])
      && s.desk.n + (if s.adder == Unlocking then 0 else 1) <= N
    case Seat(i) =>
      i < N &&
      match s.places[i]
      case Away => false
      case Arriving => s.mutexOpen
      case Looking => true
      case Admitted => true
      case Leaving => true
      case Asking => s.mutexOpen
      case Awaiting => s.desk.open[i]
      case Dining => s.mutexOpen
      case _ => i < s.desk.n
  }

  function At(s: System, i: nat, place: Place): (t: System)
    requires Shaped(s) && i < N
    ensures Shaped(t)
  {
    s.(places := s.places[i := place])
  }

  /** The test of philosopher j by philosopher i, up to the unlock of S[j] that follows a success. */
  function TestAt(s: System, i: nat, j: nat, serving: Place, next: Place): (t: System)
    requires Shaped(s) && i < N && j < s.desk.n
    ensures Shaped(t)
  {
    if CanEat(s.desk, j) then
      At(s.(desk := Feel(s.desk, j, Eating), granted := s.granted + {j}), i, serving)
    else
      At(s, i, next)
  }

  function SeatStep(s: System, i: nat): (t: System)
    requires Shaped(s) && Enabled(s, Seat(i))
    ensures Shaped(t)
  {
    var n := s.desk.n;
    match s.places[i]
    case Arriving => At(s.(mutexOpen := false), i, Looking)
    case Looking => At(s, i, if n < i + 1 then Leaving else Admitted)
    case Admitted => At(s.(mutexOpen := true), i, Asking)
    case Leaving => At(s.(mutexOpen := true), i, Away)
    case Asking => At(s.(mutexOpen := false), i, Claiming)
    case Claiming => At(s.(desk := Feel(s.desk, i, Hungry)), i, Testing)
    case Testing => TestAt(s, i, i, Serving, Releasing)
    case Serving => At(s.(desk := Serve(s.desk, i)), i, Releasing)
    case Releasing => At(s.(mutexOpen := true), i, Awaiting)
    case Awaiting => At(s.(desk := s.desk.(open := s.desk.open[i := false])), i, Dining)
    case Dining => At(s.(mutexOpen := false), i, Dropping)
    case Dropping => At(s.(desk := Feel(s.desk, i, Thinking), granted := s.granted - {i}), i, TestingLeft)
    case TestingLeft => Neighbours(i, n); TestAt(s, i, Left(i, n), ServingLeft, TestingRight)
    case ServingLeft => Neighbours(i, n); At(s.(desk := Serve(s.desk, Left(i, n))), i, TestingRight)
    case TestingRight => Neighbours(i, n); TestAt(s, i, Right(i, n), ServingRight, Closing)
    case ServingRight => Neighbours(i, n); At(s.(desk := Serve(s.desk, Right(i, n))), i, Closing)
    case Closing => At(s.(mutexOpen := true), i, Arriving)
  }

  function AdderStep(s: System): (t: System)
    requires Shaped(s) && Enabled(s, Adder)
    ensures Shaped(t)
  {
    var n := s.desk.n;
    match s.adder
    case Idle => s.(mutexOpen := false, adder := Making)
    case Making => s.(desk := Serve(s.desk, n), adder := Holding)
    case Holding => s.(desk := s.desk.(open := s.desk.open[n := false]), adder := Seating)
    case Seating => s.(places := s.places[n := Arriving], adder := Counting)
    case Counting => s.(desk := s.desk.(n := n + 1), adder := Unlocking)
    case Unlocking => s.(mutexOpen := true, adder := Idle)
  }

  function Next(s: System, a: Actor): (t: System)
    requires Shaped(s) && Enabled(s, a)
    ensures Shaped(t)
  {
    match a
    case Seat(i) => SeatStep(s, i)
    case Adder => AdderStep(s)
  }

  /** The program started on its zero-initialised storage, before anybody is added. */
  function Initial(): System {
    System(Desk(0, seq(N, _ => Eating), seq(N, _ => false)), true, seq(N, _ => Away), Idle, {})
  }

  ghost predicate Runs(s: System, actors: seq<Actor>, t: System)
    requires Shaped(s)
    ensures Runs(s, actors, t) ==> Shaped(t)
    decreases |actors|
  {
    if actors == [] then t == s else Enabled(s, actors[0]) && Runs(Next(s, actors[0]), actors[1..], t)
  }

  // ---------------------------------------------------------------- invariant

  /** Between a lock and an unlock of the mutex. */
  predicate Inside(place: Place) {
    match place
    case Away => false
    case Arriving => false
    case Asking => false
    case Awaiting => false
    case Dining => false
    case _ => true
  }

  /** Philosopher j has just granted i its forks and is about to unlock S[i]. */
  predicate AboutToServe(s: System, j: nat, i: nat)
    requires Shaped(s)
  {
    && j < s.desk.n
    && (|| (s.places[j] == ServingLeft && i == Left(j, s.desk.n))
        || (s.places[j] == ServingRight && i == Right(j, s.desk.n)))
  }

  ghost predicate Served(s: System, i: nat)
    requires Shaped(s)
  {
    exists j: nat :: AboutToServe(s, j, i)
  }

  predicate Idles(s: System, i: nat)
    requires Shaped(s) && i < N
  {
    i !in s.granted && !s.desk.open[i] && s.desk.state[i] != Hungry
  }

  predicate Starves(s: System, i: nat)
    requires Shaped(s) && i < N
  {
    i !in s.granted && !s.desk.open[i] && s.desk.state[i] == Hungry
  }

  predicate Eats(s: System, i: nat)
    requires Shaped(s) && i < N
  {
    i in s.granted && !s.desk.open[i] && s.desk.state[i] == Eating
  }

  /** Granted, and S[i] is open, or its unlock is the next step of the process that granted it. */
  ghost predicate MayEat(s: System, i: nat)
    requires Shaped(s) && i < N
  {
    && i in s.granted && s.desk.state[i] == Eating
    && (s.desk.open[i] <==> !Served(s, i))
  }

  /** A philosopher at the table: what its place in the program says about the shared variables. */
  ghost predicate SeatOk(s: System, i: nat)
    requires Shaped(s) && i < N
  {
    match s.places[i]
    case Away => false
    case Leaving => false
    case Testing => Starves(s, i)
    case Serving => Eats(s, i)
    case Releasing => Starves(s, i) || MayEat(s, i)
    case Awaiting => Starves(s, i) || MayEat(s, i)
    case Dining => Eats(s, i)
    case Dropping => Eats(s, i)
    case _ => Idles(s, i)
  }

  /** A seat not counted yet: nobody is there, except the process just created for seat n. */
  predicate EmptyOk(s: System, i: nat)
    requires Shaped(s) && i < N
  {
    && i !in s.granted && s.desk.state[i] == Eating
    && (s.places[i] == if i == s.desk.n && s.adder == Counting then Arriving else Away)
    && (i == s.desk.n && s.adder == Holding ==> s.desk.open[i])
    && (i == s.desk.n && s.adder in {Seating, Counting} ==> !s.desk.open[i])
  }

  ghost predicate PlaceOk(s: System, i: nat)
    requires Shaped(s) && i < N
  {
    && (if i < s.desk.n then SeatOk(s, i) else EmptyOk(s, i))
    && (Served(s, i) ==> i in s.granted && s.places[i] == Awaiting)
  }

  ghost predicate SeatsOk(s: System)
    requires Shaped(s)
  {
    forall i: nat | i < N :: PlaceOk(s, i)
  }

  ghost predicate SomeoneInside(s: System)
    requires Shaped(s)
  {
    exists i: nat :: i < N && Inside(s.places[i])
  }

  ghost predicate Exclusive(s: System)
    requires Shaped(s)
  {
    && (forall i: nat | i < N && Inside(s.places[i]) :: !s.mutexOpen && s.adder == Idle)
    && (forall i: nat, j: nat | i < N && j < N && Inside(s.places[i]) && Inside(s.places[j]) :: i == j)
    && (s.adder != Idle ==> !s.mutexOpen)
    && (s.adder !in {Idle, Unlocking} ==> s.desk.n < N)
    && (!s.mutexOpen && s.adder == Idle ==> SomeoneInside(s))
  }

  /** No two neighbours hold a grant. */
  ghost predicate Apart(s: System)
    requires Shaped(s)
  {
    forall i: nat | i < s.desk.n && i in s.granted ::
      (Right(i, s.desk.n) in s.granted ==> Right(i, s.desk.n) == i)
  }

  ghost predicate SomeoneMoves(s: System)
    requires Shaped(s)
  {
    s.desk.n == 0 || exists j: nat :: j < s.desk.n && (s.desk.state[j] != Hungry || s.places[j] == Testing)
  }
}
