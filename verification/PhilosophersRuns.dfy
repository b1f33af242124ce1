/**
 * Missed grants over whole runs: they come from first requests alone, and the
 * program can get there.
 */
module PhilosophersRuns {
  import opened PhilosophersSpec
  import opened PhilosophersTheorems
  import opened PhilosophersGrants

  // ---------------------------------------------------------------- where missed grants come from

  /** The desk once philosopher i, at the given place of a critical section, has made the tests that are left. */
  ghost function Settled(d: Desk, i: nat, place: Place): (r: Desk)
    requires Wf(d) && i < d.n
    ensures Wf(r) && r.n == d.n
  {
    Neighbours(i, d.n);
    match place
    case Testing => Test(d, i)
    case TestingLeft => Test(Test(d, Left(i, d.n)), Right(i, d.n))
    case ServingLeft => Test(d, Right(i, d.n))
    case TestingRight => Test(d, Right(i, d.n))
    case _ => d
  }

  /** Philosopher i, if in its critical section, leaves nobody hungry in vain. */
  ghost predicate SettlesAt(s: System, i: nat)
    requires Shaped(s) && i < N
  {
    Inside(s.places[i]) ==> i < s.desk.n && NoneMissed(Settled(s.desk, i, s.places[i]))
  }

  ghost predicate Settles(s: System)
    requires Shaped(s)
  {
    && (forall i: nat | i < N :: SettlesAt(s, i))
    && (!SomeoneInside(s) ==> NoneMissed(s.desk))
  }

  /** A first request that leaves a neighbour hungry in vain. */
  ghost predicate Blocking(s: System, a: Actor)
    requires Shaped(s)
  {
    a.Seat? && a.i < s.desk.n && s.places[a.i] == Claiming && FirstRequestBlocks(s.desk, a.i)
  }

  ghost predicate RunsWithoutBlocking(s: System, actors: seq<Actor>, t: System)
    requires Shaped(s)
    decreases |actors|
  {
    if actors == [] then t == s
    else Enabled(s, actors[0]) && !Blocking(s, actors[0]) && RunsWithoutBlocking(Next(s, actors[0]), actors[1..], t)
  }

  ghost predicate SameMoods(d: Desk, e: Desk) {
    d.n == e.n && d.state == e.state
  }

  /** Open or closed, the mutexes S do not matter to the tests. */
  lemma MoodsDecide(d: Desk, e: Desk, i: nat, place: Place)
    requires Wf(d) && Wf(e) && SameMoods(d, e)
    ensures NoneMissed(d) <==> NoneMissed(e)
    ensures i < d.n ==> SameMoods(Settled(d, i, place), Settled(e, i, place))
    ensures i < d.n ==> (NoneMissed(Settled(d, i, place)) <==> NoneMissed(Settled(e, i, place)))
  {
    hide Left;
    hide Right;
    if i < d.n {
      var f, g := Settled(d, i, place), Settled(e, i, place);
      assert SameMoods(f, g);
      assert forall k: nat | k < f.n :: CanEat(f, k) <==> CanEat(g, k);
    }
    assert forall k: nat | k < d.n :: CanEat(d, k) <==> CanEat(e, k);
  }

  /** Nobody but i is in a critical section after a step of i that starts or ends in one. */
  lemma OthersOutside(s: System, i: nat, k: nat)
    requires Inv(s) && i < N && k < N && k != i && (s.mutexOpen || Inside(s.places[i]))
    ensures !Inside(s.places[k])
  {
  }

  /** Whoever takes a step sits at the table, and has not left it. */
  lemma Seated(s: System, i: nat)
    requires Inv(s) && Enabled(s, Seat(i))
    ensures i < s.desk.n && s.places[i] != Leaving
    ensures s.places[i] == Claiming ==> s.desk.state[i] != Hungry
    ensures !Inside(s.places[i]) && s.places[i] != Awaiting ==> s.mutexOpen
  {
    assert PlaceOk(s, i);
  }

  lemma NobodyInside(s: System)
    requires Inv(s) && s.mutexOpen
    ensures !SomeoneInside(s)
  {
  }

  /** A step of i inside its section, or into it or out of it, that leaves the moods as they are. */
  lemma QuietSettles(s: System, i: nat)
    requires Inv(s) && Settles(s) && Enabled(s, Seat(i))
    requires s.places[i] !in {Awaiting, Claiming, Testing, Dropping, TestingLeft, TestingRight}
    ensures Settles(Next(s, Seat(i)))
  {
    hide Left;
    hide Right;
    hide SeatsOk;
    hide Exclusive;
    hide Apart;
    hide SomeoneMoves;
    hide NoneMissed;
    hide Test;
    var t := Next(s, Seat(i));
    Seated(s, i);
    assert SettlesAt(s, i);
    if !Inside(s.places[i]) {
      NobodyInside(s);
    }
    MoodsDecide(s.desk, t.desk, i, t.places[i]);
    assert Settled(s.desk, i, t.places[i]) == Settled(s.desk, i, s.places[i]) == s.desk || s.places[i] == ServingLeft;
    forall k: nat | k < N ensures SettlesAt(t, k) {
      if k != i {
        OthersOutside(s, i, k);
      }
    }
    if Inside(t.places[i]) {
      assert SomeoneInside(t);
    }
  }

  /** The wait for S[i] ends, whoever is in a critical section. */
  lemma AwaitingSettles(s: System, i: nat)
    requires Inv(s) && Settles(s) && Enabled(s, Seat(i)) && s.places[i] == Awaiting
    ensures Settles(Next(s, Seat(i)))
  {
    var t := Next(s, Seat(i));
    forall k: nat | k < N ensures SettlesAt(t, k) {
      assert SettlesAt(s, k);
      MoodsDecide(s.desk, t.desk, k, t.places[k]);
    }
    if SomeoneInside(s) {
      var k: nat :| k < N && Inside(s.places[k]);
      assert Inside(t.places[k]);
    }
    MoodsDecide(s.desk, t.desk, i, t.places[i]);
  }

  lemma ActiveSettles(s: System, i: nat)
    requires Inv(s) && Settles(s) && Enabled(s, Seat(i)) && !Blocking(s, Seat(i))
    requires s.places[i] in {Claiming, Testing, Dropping, TestingLeft, TestingRight}
    ensures Settles(Next(s, Seat(i)))
  {
    var t := Next(s, Seat(i));
    assert SettlesAt(s, i) && PlaceOk(s, i);
    ActiveSettlesAt(s, i);
    forall k: nat | k < N ensures SettlesAt(t, k) {
      if k != i {
        OthersOutside(s, i, k);
      }
    }
    assert Inside(t.places[i]);
  }

  lemma TestAtMoods(s: System, i: nat, j: nat, serving: Place, next: Place)
    requires Shaped(s) && i < N && j < s.desk.n
    ensures var t := TestAt(s, i, j, serving, next);
            SameMoods(Test(s.desk, j), t.desk) && (t.places[i] == serving || t.places[i] == next)
  {
    hide Left;
    hide Right;
    hide CanEat;
  }

  lemma ActiveSettlesAt(s: System, i: nat)
    requires Inv(s) && i < N && SettlesAt(s, i) && Enabled(s, Seat(i)) && !Blocking(s, Seat(i))
    requires s.places[i] in {Claiming, Testing, Dropping, TestingLeft, TestingRight}
    ensures SettlesAt(Next(s, Seat(i)), i)
  {
    hide Left;
    hide Right;
    hide SeatsOk;
    hide Exclusive;
    hide Apart;
    hide SomeoneMoves;
    hide NoneMissed;
    hide CanEat;
    hide Test;
    hide FirstRequestBlocks;
    Seated(s, i);
    var n, t := s.desk.n, Next(s, Seat(i));
    Neighbours(i, n);
    match s.places[i] {
      case Claiming => TakeMissesNobodyIff(s.desk, i);
      case Testing =>
        TestAtMoods(s, i, i, Serving, Releasing);
        MoodsDecide(Test(s.desk, i), t.desk, i, t.places[i]);
      case Dropping => PutMissesNobody(s.desk, i);
      case TestingLeft =>
        TestAtMoods(s, i, Left(i, n), ServingLeft, TestingRight);
        MoodsDecide(Test(s.desk, Left(i, n)), t.desk, i, t.places[i]);
      case TestingRight =>
        TestAtMoods(s, i, Right(i, n), ServingRight, Closing);
        MoodsDecide(Test(s.desk, Right(i, n)), t.desk, i, t.places[i]);
    }
  }

  lemma AdderSettles(s: System)
    requires Inv(s) && Settles(s) && Enabled(s, Adder)
    ensures Settles(Next(s, Adder))
  {
    var t := Next(s, Adder);
    forall k: nat | k < N ensures !Inside(s.places[k]) && !Inside(t.places[k]) {
    }
    if s.adder == Counting {
      assert PlaceOk(s, s.desk.n);
      AddMissesNobody(s.desk);
      MoodsDecide(Add(s.desk), t.desk, 0, Away);
    } else {
      MoodsDecide(s.desk, t.desk, 0, Away);
    }
  }

  lemma StepSettles(s: System, a: Actor)
    requires Inv(s) && Settles(s) && Enabled(s, a) && !Blocking(s, a)
    ensures Settles(Next(s, a))
  {
    hide SeatsOk;
    hide Exclusive;
    hide Apart;
    hide SomeoneMoves;
    hide Settles;
    match a {
      case Adder => AdderSettles(s);
      case Seat(i) =>
        if s.places[i] == Awaiting {
          AwaitingSettles(s, i);
        } else if s.places[i] in {Claiming, Testing, Dropping, TestingLeft, TestingRight} {
          ActiveSettles(s, i);
        } else {
          QuietSettles(s, i);
        }
    }
  }

  lemma {:induction false} RunSettles(s: System, actors: seq<Actor>, t: System)
    requires Inv(s) && Settles(s) && RunsWithoutBlocking(s, actors, t)
    ensures Inv(t) && Settles(t)
    decreases |actors|
  {
    if actors != [] {
      StepKeepsInv(s, actors[0]);
      StepSettles(s, actors[0]);
      RunSettles(Next(s, actors[0]), actors[1..], t);
    }
  }

  /**
   * In every interleaving without a blocking first request, whenever the mutex is open each
   * hungry philosopher has a neighbour who is EATING.
   */
  lemma NobodyMissedUnlessBlocked(actors: seq<Actor>, s: System)
    requires RunsWithoutBlocking(Initial(), actors, s) && s.mutexOpen
    ensures Shaped(s) && NoneMissed(s.desk)
    ensures var n, state := s.desk.n, s.desk.state;
            forall k: nat | k < n && state[k] == Hungry ::
              state[Before(k, n)] == Eating || state[After(k, n)] == Eating
  {
    hide Left;
    hide Right;
    InitialInv();
    RunSettles(Initial(), actors, s);
    assert !SomeoneInside(s);
    forall k: nat | k < s.desk.n && s.desk.state[k] == Hungry
      ensures s.desk.state[Before(k, s.desk.n)] == Eating || s.desk.state[After(k, s.desk.n)] == Eating
    {
      Neighbours(k, s.desk.n);
      assert !CanEat(s.desk, k);
    }
  }

  // ---------------------------------------------------------------- critical sections are atomic

  /** What philosopher i, at the given place of a critical section, will have made of the desk when it leaves. */
  ghost function Promised(d: Desk, i: nat, place: Place): (r: Desk)
    requires Wf(d) && i < d.n
    ensures Wf(r) && r.n == d.n
  {
    if place == Claiming then Take(d, i) else if place == Dropping then Put(d, i) else Settled(d, i, place)
  }

  /** Philosopher i stays in its critical section all the time. */
  ghost predicate RunsInside(s: System, actors: seq<Actor>, t: System, i: nat)
    requires Shaped(s)
    ensures RunsInside(s, actors, t, i) ==> Shaped(t)
    decreases |actors|
  {
    && i < s.desk.n && i < N && Inside(s.places[i])
    && (if actors == [] then t == s
        else Enabled(s, actors[0]) && RunsInside(Next(s, actors[0]), actors[1..], t, i))
  }

  lemma OwnStepKeepsPromise(s: System, i: nat)
    requires Inv(s) && Enabled(s, Seat(i)) && Inside(s.places[i]) && Inside(Next(s, Seat(i)).places[i])
    ensures i < s.desk.n && Next(s, Seat(i)).desk.n == s.desk.n
    ensures var t := Next(s, Seat(i));
            SameMoods(Promised(s.desk, i, s.places[i]), Promised(t.desk, i, t.places[i]))
  {
    hide Left;
    hide Right;
    hide SeatsOk;
    hide Exclusive;
    hide Apart;
    hide SomeoneMoves;
    hide CanEat;
    hide Test;
    Seated(s, i);
    var n, t := s.desk.n, Next(s, Seat(i));
    Neighbours(i, n);
    if s.places[i] == Testing {
      TestAtMoods(s, i, i, Serving, Releasing);
      MoodsDecide(Test(s.desk, i), t.desk, i, t.places[i]);
    } else if s.places[i] == TestingLeft {
      TestAtMoods(s, i, Left(i, n), ServingLeft, TestingRight);
      MoodsDecide(Test(s.desk, Left(i, n)), t.desk, i, t.places[i]);
    } else if s.places[i] == TestingRight {
      TestAtMoods(s, i, Right(i, n), ServingRight, Closing);
      MoodsDecide(Test(s.desk, Right(i, n)), t.desk, i, t.places[i]);
    } else if s.places[i] != Claiming && s.places[i] != Dropping {
      MoodsDecide(s.desk, t.desk, i, t.places[i]);
    }
  }

  lemma TakeMoods(d: Desk, e: Desk, i: nat)
    requires Wf(d) && Wf(e) && SameMoods(d, e) && i < d.n
    ensures SameMoods(Take(d, i), Take(e, i)) && SameMoods(Put(d, i), Put(e, i))
  {
    Neighbours(i, d.n);
    MoodsDecide(Feel(d, i, Hungry), Feel(e, i, Hungry), i, Testing);
    MoodsDecide(Feel(d, i, Thinking), Feel(e, i, Thinking), i, TestingLeft);
  }

  lemma OtherStepKeepsPromise(s: System, a: Actor, i: nat)
    requires Inv(s) && Enabled(s, a) && a != Seat(i) && i < s.desk.n && Inside(s.places[i])
    ensures var t := Next(s, a);
            && t.desk.n == s.desk.n && t.places[i] == s.places[i]
            && SameMoods(Promised(s.desk, i, s.places[i]), Promised(t.desk, i, t.places[i]))
  {
    var t := Next(s, a);
    if a.Seat? {
      OthersOutside(s, i, a.i);
    }
    OnlyHolderWrites(s, a);
    MoodsDecide(s.desk, t.desk, i, s.places[i]);
    TakeMoods(s.desk, t.desk, i);
  }

  lemma {:induction false} PromiseKept(s: System, actors: seq<Actor>, t: System, i: nat)
    requires Inv(s) && RunsInside(s, actors, t, i)
    ensures i < s.desk.n == t.desk.n
    ensures SameMoods(Promised(s.desk, i, s.places[i]), Promised(t.desk, i, t.places[i]))
    decreases |actors|
  {
    hide SeatsOk;
    hide Exclusive;
    hide Apart;
    hide SomeoneMoves;
    hide Promised;
    if actors != [] {
      var a := actors[0];
      StepKeepsInv(s, a);
      if a == Seat(i) {
        OwnStepKeepsPromise(s, i);
      } else {
        OtherStepKeepsPromise(s, a, i);
      }
      PromiseKept(Next(s, a), actors[1..], t, i);
    }
  }

  /**
   * Critical sections are atomic: whatever other processes do between the first assignment of a
   * section and its end, the moods are then what Take or Put of the desk at the start says.
   */
  lemma SectionsAreAtomic(s: System, actors: seq<Actor>, t: System, i: nat)
    requires Inv(s) && RunsInside(s, actors, t, i)
    ensures i < s.desk.n == t.desk.n
    ensures s.places[i] == Claiming && t.places[i] == Releasing ==> t.desk.state == Take(s.desk, i).state
    ensures s.places[i] == Dropping && t.places[i] == Closing ==> t.desk.state == Put(s.desk, i).state
  {
    hide Inv;
    hide Take;
    hide Put;
    PromiseKept(s, actors, t, i);
  }

  /** The process that adds stays in its critical section, and does not come to the assignment again. */
  ghost predicate RunsAdding(s: System, actors: seq<Actor>, t: System)
    requires Shaped(s)
    ensures RunsAdding(s, actors, t) ==> Shaped(t)
    decreases |actors|
  {
    && s.adder != Idle
    && (if actors == [] then t == s else Enabled(s, actors[0]) && RunsAdding(Next(s, actors[0]), actors[1..], t))
  }

  /** So is addPhilosopher: one seat more, and the same moods. */
  lemma {:induction false} AddingIsAtomic(s: System, actors: seq<Actor>, t: System)
    requires Inv(s) && RunsAdding(s, actors, t)
    ensures t.desk.state == s.desk.state
    ensures s.adder == Unlocking ==> t.adder == Unlocking && t.desk.n == s.desk.n
    ensures s.adder != Unlocking ==> t.desk.n == if t.adder == Unlocking then s.desk.n + 1 else s.desk.n
    decreases |actors|
  {
    if actors != [] {
      var a := actors[0];
      StepKeepsInv(s, a);
      if a.Seat? {
        OnlyHolderWrites(s, a);
      }
      AddingIsAtomic(Next(s, a), actors[1..], t);
    }
  }
}
