/**
 * A run of the program, from its start, that leaves a hungry philosopher between
 * neighbours that do not eat.
 */
module PhilosophersExample {
  import opened PhilosophersSpec
  import opened PhilosophersGrants

  ghost predicate Reaches(s: System, t: System) {
    Shaped(s) && exists actors :: Runs(s, actors, t)
  }

  lemma ReachesOn(s: System, m: System, t: System)
    requires Reaches(s, m) && Reaches(m, t)
    ensures Reaches(s, t)
  {
    var first :| Runs(s, first, m);
    var second :| Runs(m, second, t);
    RunsOn(s, first, m, second, t);
  }

  lemma ReachesNext(s: System, a: Actor)
    requires Shaped(s) && Enabled(s, a)
    ensures Reaches(s, Next(s, a))
  {
    assert Runs(Next(s, a), [], Next(s, a));
    RunThen(s, a, [], Next(s, a));
  }

  /** The given number of steps of one process. */
  lemma ReachesTwo(s: System, a: Actor) returns (t: System)
    requires Shaped(s) && Enabled(s, a) && Enabled(Next(s, a), a)
    ensures t == Next(Next(s, a), a) && Reaches(s, t)
  {
    ReachesNext(s, a);
    ReachesNext(Next(s, a), a);
    t := Next(Next(s, a), a);
    ReachesOn(s, Next(s, a), t);
  }

  // ---------------------------------------------------------------- undisturbed requests

  /** Philosopher i looks around and locks the mutex again. */
  lemma LookAround(s: System, i: nat) returns (t: System)
    requires Shaped(s) && i < s.desk.n && s.mutexOpen && s.places[i] == Arriving
    ensures Reaches(s, t) && t == At(s, i, Claiming).(mutexOpen := false)
  {
    var looking := ReachesTwo(s, Seat(i));
    assert looking == At(s, i, Admitted).(mutexOpen := false);
    t := ReachesTwo(looking, Seat(i));
    ReachesOn(s, looking, t);
    assert t.places == s.places[i := Claiming];
  }

  /** Philosopher i looks around and takes its forks, or not, without interruption. */
  lemma TakeWhole(s: System, i: nat) returns (t: System)
    requires Shaped(s) && i < s.desk.n && s.mutexOpen && s.places[i] == Arriving
    ensures Reaches(s, t)
    ensures t == At(s, i, Awaiting).(desk := Take(s.desk, i), granted := t.granted)
  {
    hide Take;
    hide Reaches;
    var claiming := LookAround(s, i);
    var releasing := TakeReached(claiming, i);
    ReachesOn(s, claiming, releasing);
    ReachesNext(releasing, Seat(i));
    t := Next(releasing, Seat(i));
    ReachesOn(s, releasing, t);
    assert t.places == s.places[i := Awaiting];
  }

  lemma TakeReached(s: System, i: nat) returns (t: System)
    requires Shaped(s) && i < s.desk.n && s.places[i] == Claiming
    ensures Reaches(s, t) && t == At(s, i, Releasing).(desk := Take(s.desk, i), granted := t.granted)
  {
    var actors;
    actors, t := TakeSection(s, i);
  }

  /** Philosopher i, whose S is open, eats and puts down its forks without interruption. */
  lemma PutWhole(s: System, i: nat) returns (t: System)
    requires Shaped(s) && i < s.desk.n && s.mutexOpen && s.places[i] == Awaiting && s.desk.open[i]
    ensures Reaches(s, t)
    ensures t == At(s, i, Arriving).(desk := Put(s.desk.(open := s.desk.open[i := false]), i), granted := t.granted)
  {
    hide Left;
    hide Right;
    hide Put;
    var dropping := ReachesTwo(s, Seat(i));
    assert dropping == At(s, i, Dropping).(mutexOpen := false, desk := s.desk.(open := s.desk.open[i := false]));
    var actors, closing := PutSection(dropping, i);
    ReachesOn(s, dropping, closing);
    ReachesNext(closing, Seat(i));
    t := Next(closing, Seat(i));
    ReachesOn(s, closing, t);
    assert t.places == s.places[i := Arriving];
  }

  lemma AddWhole(s: System) returns (t: System)
    requires Shaped(s) && s.desk.n < N && s.mutexOpen && s.adder == Idle
    ensures Reaches(s, t)
    ensures t == s.(desk := Add(s.desk), places := s.places[s.desk.n := Arriving])
  {
    ReachesNext(s, Adder);
    var making := Next(s, Adder);
    var unlocking := AddSection(making);
    ReachesOn(s, making, unlocking);
    ReachesNext(unlocking, Adder);
    t := Next(unlocking, Adder);
    ReachesOn(s, unlocking, t);
  }

  // ---------------------------------------------------------------- the run

  /** Three philosophers at the table. */
  function Three(moods: seq<Mood>, open: seq<bool>): (d: Desk)
    requires |moods| == 3 && |open| == 3
    ensures Wf(d) && d.n == 3 && d.state[..4] == moods + [Eating]
  {
    var d := Desk(3, moods + seq(N - 3, _ => Eating), open + seq(N - 3, _ => false));
    assert d.state[..4] == moods + [Eating];
    d
  }

  lemma Around()
    ensures Left(0, 3) == 2 && Right(0, 3) == 1 && Left(1, 3) == 0 && Right(1, 3) == 2
    ensures Left(2, 3) == 1 && Right(2, 3) == 0
  {
  }

  /** At the table of three, with the mutex open and nobody adding. */
  ghost predicate AtThree(s: System, moods: seq<Mood>, open: seq<bool>, places: seq<Place>)
    requires |moods| == 3 && |open| == 3 && |places| == 3
  {
    && Shaped(s) && s.desk == Three(moods, open) && s.mutexOpen && s.adder == Idle && s.places[..3] == places
    && Reaches(Initial(), s)
  }

  lemma Seated() returns (s: System)
    ensures AtThree(s, [Eating, Eating, Eating], [false, false, false], [Arriving, Arriving, Arriving])
  {
    var a := AddWhole(Initial());
    var b := AddWhole(a);
    s := AddWhole(b);
    ReachesOn(Initial(), a, b);
    ReachesOn(Initial(), b, s);
    assert s.desk.open == Three([Eating, Eating, Eating], [false, false, false]).open;
    assert s.desk.state == Three([Eating, Eating, Eating], [false, false, false]).state;
  }

  lemma TakeAtThree(s: System, i: nat, moods: seq<Mood>, open: seq<bool>, places: seq<Place>)
    returns (t: System)
    requires |moods| == 3 && |open| == 3 && |places| == 3 && AtThree(s, moods, open, places)
    requires i < 3 && places[i] == Arriving
    ensures Shaped(t) && t.desk == Take(Three(moods, open), i) && t.mutexOpen && t.adder == Idle
    ensures t.places[..3] == places[i := Awaiting] && Reaches(Initial(), t)
  {
    t := TakeWhole(s, i);
    ReachesOn(Initial(), s, t);
    assert t.places[..3] == s.places[..3][i := Awaiting];
  }

  lemma PutAtThree(s: System, i: nat, moods: seq<Mood>, open: seq<bool>, places: seq<Place>)
    returns (t: System)
    requires |moods| == 3 && |open| == 3 && |places| == 3 && AtThree(s, moods, open, places)
    requires i < 3 && places[i] == Awaiting && open[i]
    ensures Shaped(t) && t.desk == Put(Three(moods, open[i := false]), i) && t.mutexOpen && t.adder == Idle
    ensures t.places[..3] == places[i := Arriving] && Reaches(Initial(), t)
  {
    t := PutWhole(s, i);
    ReachesOn(Initial(), s, t);
    assert t.places[..3] == s.places[..3][i := Arriving];
    assert s.desk.open[i := false] == Three(moods, open[i := false]).open;
  }

  predicate OthersDoNotEat(moods: seq<Mood>, j: nat)
    requires |moods| == 3
  {
    (j == 0 || moods[0] != Eating) && (j == 1 || moods[1] != Eating) && (j == 2 || moods[2] != Eating)
  }

  /** At a table of three everybody else is a neighbour. */
  lemma CanEatThree(moods: seq<Mood>, open: seq<bool>, j: nat)
    requires |moods| == 3 && |open| == 3 && j < 3
    ensures CanEat(Three(moods, open), j) <==> moods[j] == Hungry && OthersDoNotEat(moods, j)
  {
    hide Left;
    hide Right;
    Around();
    if j == 0 {
    } else if j == 1 {
    } else {
    }
  }

  lemma FeelThree(moods: seq<Mood>, open: seq<bool>, j: nat, mood: Mood)
    requires |moods| == 3 && |open| == 3 && j < 3
    ensures Feel(Three(moods, open), j, mood) == Three(moods[j := mood], open)
    ensures Serve(Three(moods, open), j) == Three(moods, open[j := true])
  {
    assert Feel(Three(moods, open), j, mood).state == Three(moods[j := mood], open).state;
    assert Serve(Three(moods, open), j).open == Three(moods, open[j := true]).open;
  }

  /** A test at the table of three. */
  function TestAmong(d: (seq<Mood>, seq<bool>), j: nat): (r: (seq<Mood>, seq<bool>))
    requires |d.0| == 3 && |d.1| == 3 && j < 3
    ensures |r.0| == 3 && |r.1| == 3
  {
    if d.0[j] == Hungry && OthersDoNotEat(d.0, j) then (d.0[j := Eating], d.1[j := true]) else d
  }

  lemma TestThree(moods: seq<Mood>, open: seq<bool>, j: nat)
    requires |moods| == 3 && |open| == 3 && j < 3
    ensures var (m, o) := TestAmong((moods, open), j); Test(Three(moods, open), j) == Three(m, o)
  {
    hide CanEat;
    CanEatThree(moods, open, j);
    FeelThree(moods, open, j, Eating);
    FeelThree(moods[j := Eating], open, j, Eating);
  }

  /** A request of philosopher i leads to the moods and mutexes given. */
  lemma TakeAmong(s: System, i: nat, moods: seq<Mood>, open: seq<bool>, places: seq<Place>,
                  moods': seq<Mood>, open': seq<bool>, places': seq<Place>)
    returns (t: System)
    requires |moods| == 3 && |open| == 3 && |places| == 3 && AtThree(s, moods, open, places)
    requires i < 3 && places[i] == Arriving && places' == places[i := Awaiting]
    requires var d := TestAmong((moods[i := Hungry], open), i); d.0 == moods' && d.1 == open'
    ensures AtThree(t, moods', open', places')
  {
    hide Three;
    hide CanEat;
    t := TakeAtThree(s, i, moods, open, places);
    FeelThree(moods, open, i, Hungry);
    TestThree(moods[i := Hungry], open, i);
  }

  /** So does a meal that ends, with the tests of the left and of the right neighbour. */
  lemma PutAmong(s: System, i: nat, moods: seq<Mood>, open: seq<bool>, places: seq<Place>,
                 moods': seq<Mood>, open': seq<bool>, places': seq<Place>)
    returns (t: System)
    requires |moods| == 3 && |open| == 3 && |places| == 3 && AtThree(s, moods, open, places)
    requires i < 3 && places[i] == Awaiting && open[i] && places' == places[i := Arriving]
    requires var d := TestAmong(TestAmong((moods[i := Thinking], open[i := false]), (i + 2) % 3), (i + 1) % 3);
             d.0 == moods' && d.1 == open'
    ensures AtThree(t, moods', open', places')
  {
    hide Three;
    hide CanEat;
    hide Test;
    t := PutAtThree(s, i, moods, open, places);
    FeelThree(moods, open[i := false], i, Thinking);
    TestThree(moods[i := Thinking], open[i := false], (i + 2) % 3);
    var (m, o) := TestAmong((moods[i := Thinking], open[i := false]), (i + 2) % 3);
    TestThree(m, o, (i + 1) % 3);
    Around();
  }

  /** One after the other asks; the third gets its forks, and puts them down. */
  lemma FirstMeal() returns (s: System)
    ensures AtThree(s, [Hungry, Eating, Thinking], [false, true, false], [Awaiting, Awaiting, Arriving])
  {
    hide AtThree;
    var a := Seated();
    var b := TakeAmong(a, 0, [Eating, Eating, Eating], [false, false, false], [Arriving, Arriving, Arriving],
                       [Hungry, Eating, Eating], [false, false, false], [Awaiting, Arriving, Arriving]);
    var c := TakeAmong(b, 1, [Hungry, Eating, Eating], [false, false, false], [Awaiting, Arriving, Arriving],
                       [Hungry, Hungry, Eating], [false, false, false], [Awaiting, Awaiting, Arriving]);
    var d := TakeAmong(c, 2, [Hungry, Hungry, Eating], [false, false, false], [Awaiting, Awaiting, Arriving],
                       [Hungry, Hungry, Eating], [false, false, true], [Awaiting, Awaiting, Awaiting]);
    s := PutAmong(d, 2, [Hungry, Hungry, Eating], [false, false, true], [Awaiting, Awaiting, Awaiting],
                  [Hungry, Eating, Thinking], [false, true, false], [Awaiting, Awaiting, Arriving]);
  }

  /** The third asks again; the second and then the first eat and put down their forks. */
  lemma SecondMeal() returns (s: System)
    ensures AtThree(s, [Thinking, Thinking, Eating], [false, false, true], [Arriving, Arriving, Awaiting])
  {
    hide AtThree;
    var a := FirstMeal();
    var b := TakeAmong(a, 2, [Hungry, Eating, Thinking], [false, true, false], [Awaiting, Awaiting, Arriving],
                       [Hungry, Eating, Hungry], [false, true, false], [Awaiting, Awaiting, Awaiting]);
    var c := PutAmong(b, 1, [Hungry, Eating, Hungry], [false, true, false], [Awaiting, Awaiting, Awaiting],
                      [Eating, Thinking, Hungry], [true, false, false], [Awaiting, Arriving, Awaiting]);
    s := PutAmong(c, 0, [Eating, Thinking, Hungry], [true, false, false], [Awaiting, Arriving, Awaiting],
                  [Thinking, Thinking, Eating], [false, false, true], [Arriving, Arriving, Awaiting]);
  }

  /** The first asks while the third eats: the table of MissedExample. */
  lemma BeforeTheFourth() returns (s: System)
    ensures AtThree(s, [Hungry, Thinking, Eating], [false, false, true], [Awaiting, Arriving, Awaiting])
  {
    hide AtThree;
    var a := SecondMeal();
    s := TakeAmong(a, 0, [Thinking, Thinking, Eating], [false, false, true], [Arriving, Arriving, Awaiting],
                   [Hungry, Thinking, Eating], [false, false, true], [Awaiting, Arriving, Awaiting]);
  }

  /**
   * The program can come, from its start, to a state with the mutex open in which the first
   * philosopher is hungry between a hungry and a thinking neighbour: a fourth one joins and asks.
   */
  lemma MissedRun() returns (actors: seq<Actor>, s: System)
    ensures Runs(Initial(), actors, s) && s.mutexOpen && s.adder == Idle && s.desk.n == 4
    ensures s.places[0] == Awaiting && CanEat(s.desk, 0) && !NoneMissed(s.desk)
  {
    var a := BeforeTheFourth();
    var b := AddWhole(a);
    ReachesOn(Initial(), a, b);
    assert b.places[0] == a.places[..3][0];
    s := TakeWhole(b, 3);
    ReachesOn(Initial(), b, s);
    MissedExample(a.desk);
    assert s.places[0] == b.places[0];
    actors :| Runs(Initial(), actors, s);
  }
}
