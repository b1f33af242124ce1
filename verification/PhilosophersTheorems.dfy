/**
 * Safety and progress of the dining philosophers over every interleaving of
 * take_fork, put_fork and addPhilosopher.
 */
module PhilosophersTheorems {
  import opened PhilosophersSpec

  ghost predicate Inv(s: System) {
    Shaped(s) && SeatsOk(s) && Exclusive(s) && Apart(s) && SomeoneMoves(s)
  }

  lemma InitialInv()
    ensures Inv(Initial())
  {
  }

  lemma KeepsExclusive(s: System, a: Actor)
    requires Shaped(s) && SeatsOk(s) && Exclusive(s) && Enabled(s, a)
    ensures Exclusive(Next(s, a))
  {
    var t := Next(s, a);
    if !t.mutexOpen && t.adder == Idle {
      if !s.mutexOpen && !Inside(s.places[a.i]) {
        var j: nat :| j < N && Inside(s.places[j]);
        assert Inside(t.places[j]);
      } else {
        assert Inside(t.places[a.i]);
      }
    }
  }

  /** Only the process inside the mutex changes the moods and the number of philosophers. */
  lemma OnlyHolderWrites(s: System, a: Actor)
    requires Inv(s) && Enabled(s, a)
    requires match a case Adder => s.adder == Idle case Seat(i) => !Inside(s.places[i])
    ensures Next(s, a).desk.state == s.desk.state && Next(s, a).desk.n == s.desk.n
    ensures Next(s, a).granted == s.granted
  {
  }

  // ---------------------------------------------------------------- seats

  predicate IsServing(place: Place) {
    place == ServingLeft || place == ServingRight
  }

  /** Who is about to be served changes only with the step of somebody who serves. */
  lemma ServedSame(s: System, i: nat, k: nat)
    requires Shaped(s) && Enabled(s, Seat(i))
    requires !IsServing(s.places[i]) && !IsServing(SeatStep(s, i).places[i])
    ensures Served(SeatStep(s, i), k) <==> Served(s, k)
  {
    var t := SeatStep(s, i);
    assert forall j: nat :: AboutToServe(t, j, k) <==> AboutToServe(s, j, k);
  }

  /** While i is in the critical section and not serving, nobody is being served. */
  lemma NobodyServed(s: System, i: nat, k: nat)
    requires Inv(s) && i < N && Inside(s.places[i]) && !IsServing(s.places[i])
    ensures !Served(s, k)
  {
    hide Left;
    hide Right;
    assert forall j: nat :: AboutToServe(s, j, k) ==> Inside(s.places[j]);
  }

  lemma AdderKeepsSeats(s: System)
    requires Inv(s) && Enabled(s, Adder)
    ensures SeatsOk(Next(s, Adder))
  {
    var t := Next(s, Adder);
    forall k: nat | k < N ensures PlaceOk(t, k) {
      assert PlaceOk(s, k);
      assert forall j: nat :: !AboutToServe(t, j, k) && !AboutToServe(s, j, k);
    }
  }

  /** A seat for which nothing changes. */
  lemma SeatFrame(s: System, t: System, k: nat)
    requires Shaped(s) && Shaped(t) && k < N && s.desk.n == t.desk.n && s.adder == t.adder
    requires s.places[k] == t.places[k] && s.desk.state[k] == t.desk.state[k] && s.desk.open[k] == t.desk.open[k]
    requires k in s.granted <==> k in t.granted
    requires Served(s, k) <==> Served(t, k)
    requires PlaceOk(s, k)
    ensures PlaceOk(t, k)
  {
  }

  /** Steps other than the tests and the unlocks of S. */
  lemma QuietKeepsSeats(s: System, i: nat)
    requires Inv(s) && Enabled(s, Seat(i))
    requires s.places[i] !in {Testing, TestingLeft, TestingRight, Serving, ServingLeft, ServingRight}
    ensures SeatsOk(Next(s, Seat(i)))
  {
    hide Apart;
    hide SomeoneMoves;
    hide CanEat;
    var t := Next(s, Seat(i));
    forall k: nat | k < N ensures PlaceOk(t, k) {
      ServedSame(s, i, k);
      assert PlaceOk(s, k);
      if k != i {
        SeatFrame(s, t, k);
      }
    }
  }

  /** A failed test changes nothing but the place in the program. */
  lemma FailedTestKeepsSeats(s: System, i: nat, j: nat, next: Place)
    requires Inv(s) && i < s.desk.n && j < s.desk.n && !CanEat(s.desk, j)
    requires (s.places[i], j, next) in
             {(Testing, i, Releasing), (TestingLeft, Left(i, s.desk.n), TestingRight),
              (TestingRight, Right(i, s.desk.n), Closing)}
    ensures SeatsOk(At(s, i, next))
  {
    hide Left;
    hide Right;
    hide CanEat;
    var t := At(s, i, next);
    forall k: nat | k < N ensures PlaceOk(t, k) {
      assert PlaceOk(s, k);
      NobodyServed(s, i, k);
      assert forall p: nat :: !AboutToServe(t, p, k) by {
        assert forall p: nat :: AboutToServe(t, p, k) ==> AboutToServe(s, p, k);
      }
      if k != i {
        SeatFrame(s, t, k);
      }
    }
  }

  /** A success leaves the one who got the forks to be served by the one who tests. */
  lemma GrantKeepsSeats(s: System, i: nat, j: nat, serving: Place)
    requires Inv(s) && i < s.desk.n && j < s.desk.n && s.desk.state[j] == Hungry
    requires (s.places[i], j, serving) in
             {(Testing, i, Serving), (TestingLeft, Left(i, s.desk.n), ServingLeft),
              (TestingRight, Right(i, s.desk.n), ServingRight)}
    ensures SeatsOk(At(s.(desk := Feel(s.desk, j, Eating), granted := s.granted + {j}), i, serving))
  {
    hide Apart;
    hide SomeoneMoves;
    hide CanEat;
    hide Left;
    hide Right;
    var t := At(s.(desk := Feel(s.desk, j, Eating), granted := s.granted + {j}), i, serving);
    forall k: nat | k < N ensures PlaceOk(t, k) {
      assert PlaceOk(s, i) && PlaceOk(s, k);
      NobodyServed(s, i, k);
      assert forall p: nat :: AboutToServe(t, p, k) <==> p == i && k == j && i != j;
      if i != j {
        assert AboutToServe(t, i, j);
      }
      if k != i && k != j {
        SeatFrame(s, t, k);
      }
    }
  }

  lemma TestKeepsSeats(s: System, i: nat, j: nat, serving: Place, next: Place)
    requires Inv(s) && i < s.desk.n && j < s.desk.n
    requires (s.places[i], j, serving, next) in
             {(Testing, i, Serving, Releasing), (TestingLeft, Left(i, s.desk.n), ServingLeft, TestingRight),
              (TestingRight, Right(i, s.desk.n), ServingRight, Closing)}
    ensures SeatsOk(TestAt(s, i, j, serving, next))
  {
    hide Left;
    hide Right;
    hide SeatsOk;
    if CanEat(s.desk, j) {
      GrantKeepsSeats(s, i, j, serving);
    } else {
      FailedTestKeepsSeats(s, i, j, next);
    }
  }

  /** The unlock of S[j] by i, the end of its test of j. */
  lemma ServeKeepsSeats(s: System, i: nat, j: nat, next: Place)
    requires Inv(s) && i < s.desk.n && j < s.desk.n
    requires (s.places[i], j, next) in
             {(Serving, i, Releasing), (ServingLeft, Left(i, s.desk.n), TestingRight),
              (ServingRight, Right(i, s.desk.n), Closing)}
    ensures SeatsOk(At(s.(desk := Serve(s.desk, j)), i, next))
  {
    hide Apart;
    hide SomeoneMoves;
    hide CanEat;
    hide Left;
    hide Right;
    var t := At(s.(desk := Serve(s.desk, j)), i, next);
    assert PlaceOk(s, i) && PlaceOk(s, j);
    if s.places[i] != Serving {
      assert AboutToServe(s, i, j);
    }
    forall k: nat | k < N ensures PlaceOk(t, k) {
      assert PlaceOk(s, k);
      assert forall p: nat :: AboutToServe(s, p, k) ==> p == i && k == j;
      assert forall p: nat :: !AboutToServe(t, p, k);
      if k != i && k != j {
        SeatFrame(s, t, k);
      }
    }
  }

  // ---------------------------------------------------------------- grants

  lemma GrantedEats(s: System, k: nat)
    requires Inv(s) && k < N && k in s.granted
    ensures k < s.desk.n && s.desk.state[k] == Eating
  {
    assert PlaceOk(s, k);
  }

  lemma TestKeepsApart(s: System, i: nat, j: nat, serving: Place, next: Place)
    requires Inv(s) && i < N && j < s.desk.n
    ensures Apart(TestAt(s, i, j, serving, next))
  {
    hide Left;
    hide Right;
    hide SeatsOk;
    hide Exclusive;
    hide SomeoneMoves;
    var n := s.desk.n;
    var t := TestAt(s, i, j, serving, next);
    if CanEat(s.desk, j) {
      Neighbours(j, n);
      assert Left(j, n) !in s.granted by {
        if Left(j, n) in s.granted {
          GrantedEats(s, Left(j, n));
        }
      }
      assert Right(j, n) !in s.granted by {
        if Right(j, n) in s.granted {
          GrantedEats(s, Right(j, n));
        }
      }
      forall k: nat | k < n && k in t.granted && Right(k, n) in t.granted ensures Right(k, n) == k {
        Neighbours(k, n);
      }
    }
  }

  lemma KeepsApart(s: System, a: Actor)
    requires Inv(s) && Enabled(s, a)
    ensures Apart(Next(s, a))
  {
    var n := s.desk.n;
    match a {
      case Adder =>
        if s.adder == Counting {
          assert PlaceOk(s, n);
          forall k: nat | k < n && k in s.granted ensures Right(k, n + 1) !in s.granted {
            Neighbours(k, n + 1);
            Neighbours(k, n);
          }
        }
      case Seat(i) =>
        if s.places[i] in {Testing, TestingLeft, TestingRight} {
          Neighbours(i, n);
          match s.places[i] {
            case Testing => TestKeepsApart(s, i, i, Serving, Releasing);
            case TestingLeft => TestKeepsApart(s, i, Left(i, n), ServingLeft, TestingRight);
            case TestingRight => TestKeepsApart(s, i, Right(i, n), ServingRight, Closing);
          }
        }
    }
  }

  lemma KeepsMoves(s: System, a: Actor)
    requires Inv(s) && Enabled(s, a)
    ensures SomeoneMoves(Next(s, a))
  {
    var n := s.desk.n;
    var t := Next(s, a);
    if n > 0 {
      var j: nat :| j < n && (s.desk.state[j] != Hungry || s.places[j] == Testing);
      if a.Seat? && s.places[a.i] == Testing && !CanEat(s.desk, a.i) {
        Neighbours(a.i, n);
        assert PlaceOk(s, a.i);
        assert t.desk.state[Left(a.i, n)] != Hungry || t.desk.state[Right(a.i, n)] != Hungry;
      } else if a.Seat? && s.places[a.i] in {Claiming, Testing} {
        assert t.desk.state[a.i] != Hungry || t.places[a.i] == Testing;
      } else {
        assert t.desk.state[j] != Hungry || t.places[j] == Testing;
      }
    } else if a == Adder && s.adder == Counting {
      assert PlaceOk(s, n);
      assert t.desk.state[0] != Hungry;
    }
  }

  lemma SeatKeepsSeats(s: System, i: nat)
    requires Inv(s) && Enabled(s, Seat(i))
    ensures SeatsOk(Next(s, Seat(i)))
  {
    var n := s.desk.n;
    assert PlaceOk(s, i);
    if i < n {
      Neighbours(i, n);
    }
    match s.places[i] {
      case Testing => TestKeepsSeats(s, i, i, Serving, Releasing);
      case TestingLeft => TestKeepsSeats(s, i, Left(i, n), ServingLeft, TestingRight);
      case TestingRight => TestKeepsSeats(s, i, Right(i, n), ServingRight, Closing);
      case Serving => ServeKeepsSeats(s, i, i, Releasing);
      case ServingLeft => ServeKeepsSeats(s, i, Left(i, n), TestingRight);
      case ServingRight => ServeKeepsSeats(s, i, Right(i, n), Closing);
      case _ => QuietKeepsSeats(s, i);
    }
  }

  lemma StepKeepsInv(s: System, a: Actor)
    requires Inv(s) && Enabled(s, a)
    ensures Inv(Next(s, a))
  {
    hide SeatsOk;
    hide Exclusive;
    hide Apart;
    hide SomeoneMoves;
    KeepsExclusive(s, a);
    KeepsApart(s, a);
    KeepsMoves(s, a);
    match a {
      case Adder => AdderKeepsSeats(s);
      case Seat(i) => SeatKeepsSeats(s, i);
    }
  }

  lemma {:induction false} RunKeepsInv(s: System, actors: seq<Actor>, t: System)
    requires Inv(s) && Runs(s, actors, t)
    ensures Inv(t)
    decreases |actors|
  {
    if actors != [] {
      StepKeepsInv(s, actors[0]);
      RunKeepsInv(Next(s, actors[0]), actors[1..], t);
    }
  }

  // ---------------------------------------------------------------- the main results

  /** In every interleaving two neighbours never both hold a grant, and whoever holds one is EATING. */
  lemma NeighboursNeverEatTogether(actors: seq<Actor>, s: System)
    requires Runs(Initial(), actors, s)
    ensures forall i: nat, j: nat | i < s.desk.n && j < s.desk.n && i != j && i in s.granted && j in s.granted ::
              j != Left(i, s.desk.n) && j != Right(i, s.desk.n)
    ensures forall i: nat | i in s.granted && i < N :: i < s.desk.n && s.desk.state[i] == Eating
  {
    hide Left;
    hide Right;
    InitialInv();
    RunKeepsInv(Initial(), actors, s);
    forall i: nat, j: nat | i < s.desk.n && j < s.desk.n && i != j && i in s.granted && j in s.granted
      ensures j != Left(i, s.desk.n) && j != Right(i, s.desk.n)
    {
      Neighbours(i, s.desk.n);
      Neighbours(j, s.desk.n);
    }
    forall i: nat | i in s.granted && i < N ensures i < s.desk.n && s.desk.state[i] == Eating {
      GrantedEats(s, i);
    }
  }

  /**
   * In every interleaving: a philosopher past the wait for its own S has a grant and has used
   * it up, and an open S belongs to one who has a grant and is still on the way to its wait.
   */
  lemma OpenMeansGranted(actors: seq<Actor>, s: System, i: nat)
    requires Runs(Initial(), actors, s) && i < s.desk.n
    ensures i < N
    ensures s.places[i] in {Dining, Dropping} ==> i in s.granted && !s.desk.open[i]
    ensures s.desk.open[i] ==> i in s.granted && s.places[i] in {Releasing, Awaiting}
  {
    InitialInv();
    RunKeepsInv(Initial(), actors, s);
    assert PlaceOk(s, i);
  }

  /** In every interleaving at most one process is in a critical section, and none while the mutex is open. */
  lemma OneInside(actors: seq<Actor>, s: System)
    requires Runs(Initial(), actors, s)
    ensures forall i: nat, j: nat | i < N && j < N && Inside(s.places[i]) && Inside(s.places[j]) :: i == j
    ensures forall i: nat | i < N && Inside(s.places[i]) :: s.adder == Idle && !s.mutexOpen
    ensures s.adder != Idle ==> !s.mutexOpen
  {
    InitialInv();
    RunKeepsInv(Initial(), actors, s);
  }

  lemma SomeStep(s: System) returns (a: Actor)
    requires Inv(s) && s.desk.n > 0
    ensures Enabled(s, a) && (a == Adder ==> s.adder != Idle)
  {
    if s.adder != Idle {
      assert s.adder != Unlocking ==> PlaceOk(s, s.desk.n);
      a := Adder;
    } else if i: nat :| i < N && Inside(s.places[i]) {
      assert PlaceOk(s, i);
      a := Seat(i);
    } else {
      var j: nat :| j < s.desk.n && (s.desk.state[j] != Hungry || s.places[j] == Testing);
      assert PlaceOk(s, j);
      a := Seat(j);
    }
  }

  /** No deadlock: once somebody sits at the table, some process other than an idle adder can take a step. */
  lemma AlwaysSomeStep(actors: seq<Actor>, s: System)
    requires Runs(Initial(), actors, s) && s.desk.n > 0
    ensures exists a :: Enabled(s, a) && (a == Adder ==> s.adder != Idle)
  {
    InitialInv();
    RunKeepsInv(Initial(), actors, s);
    var a := SomeStep(s);
  }
}
