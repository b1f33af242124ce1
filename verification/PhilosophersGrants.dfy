/**
 * Whether a hungry philosopher can be left without forks that nobody uses: the critical
 * sections of take_fork, put_fork and addPhilosopher as steps on the shared variables.
 */
module PhilosophersGrants {
  import opened PhilosophersSpec

  lemma RunThen(s: System, a: Actor, actors: seq<Actor>, t: System)
    requires Shaped(s) && Enabled(s, a) && Runs(Next(s, a), actors, t)
    ensures Runs(s, [a] + actors, t)
  {
    assert ([a] + actors)[1..] == actors;
  }

  /** From its Claiming to its Releasing philosopher i does what Take says. */
  lemma TakeSection(s: System, i: nat) returns (actors: seq<Actor>, t: System)
    requires Shaped(s) && i < s.desk.n && s.places[i] == Claiming
    ensures Runs(s, actors, t) && (forall a | a in actors :: a == Seat(i))
    ensures t == At(s, i, Releasing).(desk := Take(s.desk, i), granted := t.granted)
  {
    var claimed := Next(s, Seat(i));
    actors, t := TestSection(claimed, i, i, Serving, Releasing);
    RunThen(s, Seat(i), actors, t);
    actors := [Seat(i)] + actors;
    assert t.places == s.places[i := Releasing];
  }

  /** From its Dropping to its Closing philosopher i does what Put says. */
  lemma PutSection(s: System, i: nat) returns (actors: seq<Actor>, t: System)
    requires Shaped(s) && i < s.desk.n && s.places[i] == Dropping
    ensures Runs(s, actors, t) && (forall a | a in actors :: a == Seat(i))
    ensures t == At(s, i, Closing).(desk := Put(s.desk, i), granted := t.granted)
  {
    hide Left;
    hide Right;
    Neighbours(i, s.desk.n);
    var dropped := Next(s, Seat(i));
    var first, middle := TestSection(dropped, i, Left(i, s.desk.n), ServingLeft, TestingRight);
    var second, end := TestSection(middle, i, Right(i, s.desk.n), ServingRight, Closing);
    RunsOn(dropped, first, middle, second, end);
    RunThen(s, Seat(i), first + second, end);
    actors, t := [Seat(i)] + (first + second), end;
    assert t.places == s.places[i := Closing];
  }

  lemma {:induction false} RunsOn(s: System, first: seq<Actor>, m: System, second: seq<Actor>, t: System)
    requires Shaped(s) && Runs(s, first, m) && Runs(m, second, t)
    ensures Runs(s, first + second, t)
    decreases |first|
  {
    if first == [] {
      assert first + second == second;
    } else {
      RunsOn(Next(s, first[0]), first[1..], m, second, t);
      RunThen(s, first[0], first[1..] + second, t);
      assert [first[0]] + (first[1..] + second) == first + second;
    }
  }

  /** A test of j by i, in one step when it fails and in two when it succeeds. */
  lemma TestSection(s: System, i: nat, j: nat, serving: Place, next: Place) returns (actors: seq<Actor>, t: System)
    requires Shaped(s) && i < s.desk.n && j < s.desk.n
    requires (s.places[i], j, serving, next) in
             {(Testing, i, Serving, Releasing), (TestingLeft, Left(i, s.desk.n), ServingLeft, TestingRight),
              (TestingRight, Right(i, s.desk.n), ServingRight, Closing)}
    ensures Runs(s, actors, t) && (forall a | a in actors :: a == Seat(i))
    ensures t == At(s, i, next).(desk := Test(s.desk, j), granted := t.granted)
  {
    hide Left;
    hide Right;
    hide CanEat;
    var a := Next(s, Seat(i));
    assert a == TestAt(s, i, j, serving, next);
    if CanEat(s.desk, j) {
      t := Next(a, Seat(i));
      assert Runs(t, [], t);
      RunThen(a, Seat(i), [], t);
      RunThen(s, Seat(i), [Seat(i)], t);
      actors := [Seat(i)] + [Seat(i)];
      assert t.places == s.places[i := next];
    } else {
      t := a;
      assert Runs(t, [], t);
      RunThen(s, Seat(i), [], t);
      actors := [Seat(i)] + [];
    }
  }

  /** Inside the mutex "addPhilosopher" does what Add says, and creates the process of its philosopher. */
  lemma AddSection(s: System) returns (t: System)
    requires Shaped(s) && s.desk.n < N && s.adder == Making
    ensures Runs(s, [Adder, Adder, Adder, Adder], t)
    ensures t == s.(desk := Add(s.desk), adder := Unlocking, places := s.places[s.desk.n := Arriving])
  {
    var a := Next(s, Adder);
    var b := Next(a, Adder);
    var c := Next(b, Adder);
    t := Next(c, Adder);
    assert Runs(t, [], t);
    RunThen(c, Adder, [], t);
    RunThen(b, Adder, [Adder], t);
    RunThen(a, Adder, [Adder] + [Adder], t);
    RunThen(s, Adder, [Adder] + ([Adder] + [Adder]), t);
    assert [Adder] + ([Adder] + ([Adder] + [Adder])) == [Adder, Adder, Adder, Adder];
    assert t.desk.open == s.desk.open[s.desk.n := false];
  }

  // ---------------------------------------------------------------- whom a section serves

  /** The seat before i, around the table. */
  function Before(i: nat, n: nat): nat
    requires i < n
  {
    if i == 0 then n - 1 else i - 1
  }

  function After(i: nat, n: nat): nat
    requires i < n
  {
    if i == n - 1 then 0 else i + 1
  }

  /** take_fork, exactly: EATING and an open S[i] if no neighbour is EATING, otherwise HUNGRY; nobody else changes. */
  lemma TakeServes(d: Desk, i: nat)
    requires Wf(d) && i < d.n
    ensures var e, l, r := Take(d, i), Before(i, d.n), After(i, d.n);
            var served := (l == i || d.state[l] != Eating) && (r == i || d.state[r] != Eating);
            && e.n == d.n
            && e.state == d.state[i := if served then Eating else Hungry]
            && e.open == if served then d.open[i := true] else d.open
  {
    hide Left;
    hide Right;
    Neighbours(i, d.n);
    assert d.state[i := Hungry][i := Eating] == d.state[i := Eating];
  }

  /** The mutex S[k] is opened for those who become EATING. */
  ghost predicate OpenedForServed(d: Desk, e: Desk)
    requires Wf(d) && Wf(e)
  {
    forall k: nat | k < N :: e.open[k] <==> d.open[k] || (d.state[k] != Eating && e.state[k] == Eating)
  }

  lemma TestServes(d: Desk, j: nat)
    requires Wf(d) && j < d.n
    ensures var e := Test(d, j);
            && e.n == d.n && OpenedForServed(d, e)
            && e.state == if d.state[j] == Hungry && d.state[Before(j, d.n)] != Eating && d.state[After(j, d.n)] != Eating
                          then d.state[j := Eating] else d.state
  {
    hide Left;
    hide Right;
    Neighbours(j, d.n);
  }

  lemma OpenedTwice(d: Desk, e: Desk, f: Desk)
    requires Wf(d) && Wf(e) && Wf(f) && OpenedForServed(d, e) && OpenedForServed(e, f)
    requires forall k: nat | k < N :: (d.state[k] == Eating ==> e.state[k] == Eating)
                                      && (e.state[k] == Eating ==> f.state[k] == Eating)
    ensures OpenedForServed(d, f)
  {
  }

  /** put_fork is an assignment and two tests, of the left neighbour first. */
  lemma PutTests(d: Desk, i: nat) returns (f: Desk, g: Desk)
    requires Wf(d) && i < d.n
    ensures f == d.(state := d.state[i := Thinking]) && Wf(g) && g.n == d.n
    ensures g == Test(f, Before(i, d.n)) && Put(d, i) == Test(g, After(i, d.n))
  {
    hide Left;
    hide Right;
    hide Test;
    Neighbours(i, d.n);
    f := Feel(d, i, Thinking);
    g := Test(f, Before(i, d.n));
  }

  /** Served on a table of moods: philosopher j, if hungry between neighbours that are not EATING. */
  ghost function ServedMoods(state: seq<Mood>, j: nat, n: nat): (r: seq<Mood>)
    requires j < n <= |state|
    ensures |r| == |state|
  {
    if state[j] == Hungry && state[Before(j, n)] != Eating && state[After(j, n)] != Eating then state[j := Eating] else state
  }

  /**
   * put_fork, exactly: i is THINKING; a hungry left neighbour is served if its own left neighbour is not EATING, and
   * then a hungry right neighbour if its own right neighbour is not, so that at a table of three the left one
   * goes first; nobody else changes.
   */
  lemma PutServes(d: Desk, i: nat)
    requires Wf(d) && i < d.n
    ensures var n, e, l, r := d.n, Put(d, i), Before(i, d.n), After(i, d.n);
            && e.n == n && e.state[i] == Thinking
            && (l != i ==> e.state[l] == if d.state[l] == Hungry && (n == 2 || d.state[Before(l, n)] != Eating)
                                         then Eating else d.state[l])
            && (r != i && r != l ==> e.state[r] == if d.state[r] == Hungry && e.state[After(r, n)] != Eating
                                                   then Eating else d.state[r])
            && (forall k: nat | k < N && k != i && k != l && k != r :: e.state[k] == d.state[k])
  {
    var f, g := PutTests(d, i);
    TestServes(f, Before(i, d.n));
    TestServes(g, After(i, d.n));
    assert Put(d, i).n == d.n;
    assert Put(d, i).state == ServedMoods(ServedMoods(f.state, Before(i, d.n), d.n), After(i, d.n), d.n);
    hide *;
    PutMoods(d.state, i, d.n);
  }

  lemma PutMoods(state: seq<Mood>, i: nat, n: nat)
    requires i < n <= |state|
    ensures var f := state[i := Thinking];
            var e, l, r := ServedMoods(ServedMoods(f, Before(i, n), n), After(i, n), n), Before(i, n), After(i, n);
            && e[i] == Thinking
            && (l != i ==> e[l] == if state[l] == Hungry && (n == 2 || state[Before(l, n)] != Eating)
                                   then Eating else state[l])
            && (r != i && r != l ==> e[r] == if state[r] == Hungry && e[After(r, n)] != Eating then Eating else state[r])
            && (forall k: nat | k < |state| && k != i && k != l && k != r :: e[k] == state[k])
  {
  }

  /** put_fork opens S[k] for those whom it serves, and for nobody else. */
  lemma PutOpens(d: Desk, i: nat)
    requires Wf(d) && i < d.n
    ensures OpenedForServed(d.(state := d.state[i := Thinking]), Put(d, i))
  {
    var f, g := PutTests(d, i);
    TestServes(f, Before(i, d.n));
    TestServes(g, After(i, d.n));
    hide Test;
    hide Put;
    hide OpenedForServed;
    OpenedTwice(f, g, Put(d, i));
  }

  // ---------------------------------------------------------------- missed grants

  /** Every hungry philosopher has a neighbour who is EATING: a test of it would fail. */
  ghost predicate NoneMissed(d: Desk)
    requires Wf(d)
  {
    forall k: nat | k < d.n :: !CanEat(d, k)
  }

  /** A test settles the one tested, and gives nobody else a chance. */
  lemma TestSettles(d: Desk, j: nat, k: nat)
    requires Wf(d) && j < d.n && k < d.n
    ensures !CanEat(Test(d, j), j)
    ensures CanEat(Test(d, j), k) ==> CanEat(d, k)
  {
    hide Left;
    hide Right;
    Neighbours(k, d.n);
  }

  /** A change of mood of i concerns i and its neighbours. */
  lemma MoodFrame(d: Desk, i: nat, mood: Mood, k: nat)
    requires Wf(d) && i < d.n && k < d.n && k != i && k != Left(i, d.n) && k != Right(i, d.n)
    ensures CanEat(Feel(d, i, mood), k) <==> CanEat(d, k)
  {
    hide Left;
    hide Right;
    Neighbours(i, d.n);
    Neighbours(k, d.n);
  }

  lemma PutMissesNobody(d: Desk, i: nat)
    requires Wf(d) && i < d.n && NoneMissed(d)
    ensures NoneMissed(Put(d, i))
  {
    hide Left;
    hide Right;
    Neighbours(i, d.n);
    var e := Feel(d, i, Thinking);
    var f := Test(e, Left(i, d.n));
    forall k: nat | k < d.n ensures !CanEat(Put(d, i), k) {
      TestSettles(e, Left(i, d.n), k);
      TestSettles(f, Right(i, d.n), k);
      if k != i && k != Left(i, d.n) && k != Right(i, d.n) {
        MoodFrame(d, i, Thinking, k);
      }
    }
  }

  /** The new seat's EATING, from the zero-initialised table, stands in for the neighbour lost. */
  lemma AddMissesNobody(d: Desk)
    requires Wf(d) && d.n < N && NoneMissed(d) && d.state[d.n] == Eating
    ensures NoneMissed(Add(d))
  {
    hide Left;
    hide Right;
    forall k: nat | k < d.n + 1 ensures !CanEat(Add(d), k) {
      Neighbours(k, d.n + 1);
      if k < d.n {
        Neighbours(k, d.n);
        assert !CanEat(d, k);
      }
    }
  }

  /** k is hungry, and of its neighbours only i can be EATING. */
  predicate LeansOn(d: Desk, k: nat, i: nat)
    requires Wf(d) && k < d.n
  {
    Neighbours(k, d.n);
    && d.state[k] == Hungry
    && (Left(k, d.n) == i || d.state[Left(k, d.n)] != Eating)
    && (Right(k, d.n) == i || d.state[Right(k, d.n)] != Eating)
  }

  /** Philosopher i has not asked for forks before, cannot have them now, and a neighbour waits for i alone. */
  predicate FirstRequestBlocks(d: Desk, i: nat)
    requires Wf(d) && i < d.n
  {
    Neighbours(i, d.n);
    && d.state[i] == Eating
    && (d.state[Left(i, d.n)] == Eating || d.state[Right(i, d.n)] == Eating)
    && (LeansOn(d, Left(i, d.n), i) || LeansOn(d, Right(i, d.n), i))
  }

  /**
   * "take_fork" leaves a hungry philosopher between neighbours that do not eat exactly when it is
   * the first request of a newcomer, whose EATING was never a meal and whose HUNGRY tests nobody else.
   */
  lemma TakeMissesNobodyIff(d: Desk, i: nat)
    requires Wf(d) && i < d.n && NoneMissed(d) && d.state[i] != Hungry
    ensures NoneMissed(Take(d, i)) <==> !FirstRequestBlocks(d, i)
  {
    hide Left;
    hide Right;
    var n := d.n;
    var h := Feel(d, i, Hungry);
    Neighbours(i, n);
    Neighbours(Left(i, n), n);
    Neighbours(Right(i, n), n);
    if FirstRequestBlocks(d, i) {
      assert CanEat(Take(d, i), Left(i, n)) || CanEat(Take(d, i), Right(i, n));
    } else {
      forall k: nat | k < n ensures !CanEat(Take(d, i), k) {
        TestSettles(h, i, k);
        assert !CanEat(d, k);
        if k != i && k != Left(i, n) && k != Right(i, n) {
          MoodFrame(d, i, Hungry, k);
        }
      }
    }
  }

  /** Philosopher 4 joins 1, 2 and 3, of whom 1 is hungry and 3 eats, and asks: 1 then waits for nobody. */
  lemma MissedExample(d: Desk)
    requires Wf(d) && d.n == 3 && d.state[..4] == [Hungry, Thinking, Eating, Eating]
    ensures NoneMissed(d) && NoneMissed(Add(d))
    ensures !NoneMissed(Take(Add(d), 3)) && CanEat(Take(Add(d), 3), 0)
  {
    assert d.state[0] == d.state[..4][0] && d.state[1] == d.state[..4][1];
    assert d.state[2] == d.state[..4][2] && d.state[3] == d.state[..4][3];
    forall k: nat | k < 3 ensures !CanEat(d, k) {
      Neighbours(k, 3);
    }
    AddMissesNobody(d);
    assert FirstRequestBlocks(Add(d), 3);
    TakeMissesNobodyIff(Add(d), 3);
    assert Left(0, 4) == 3 && Right(0, 4) == 1;
  }
}
