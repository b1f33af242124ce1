/**
 * Who is selected, and what the selection makes of the ring, the priority served
 * and the counters: one closed form for the walk of "setNextCurrent" and
 * "handlePriority" around the ring, in terms of the entries before the call.
 */
module SchedulerSelection {
  import opened Processes
  import opened SchedulerSpec
  import opened SchedulerTheorems

  // ---------------------------------------------------------------- the walk

  predicate Awake(e: Entry) {
    e.status == Ready || e.status == Running
  }

  /** The entry after the walk has come by n times without selecting it. */
  ghost function PassedBy(e: Entry, n: nat): Entry {
    if Awake(e) then e.(starvation := e.starvation + n) else e
  }

  /** Entries that the walk has come by n times: the first time it takes the deleted ones out. */
  ghost function Walked(ring: seq<Entry>, n: nat): seq<Entry> {
    if n == 0 || ring == [] then ring
    else (if ring[0].status == Deleted then [] else [PassedBy(ring[0], n)]) + Walked(ring[1..], n)
  }

  /** What follows the entry at place d once the walk stands there after so many whole laps. */
  ghost function Turned(ring: seq<Entry>, d: nat, laps: nat): seq<Entry>
    requires d < |ring|
  {
    Walked(ring[d + 1..], laps) + Walked(ring[..d], laps + 1)
  }

  /** How many entries that can run the walk comes by if it comes by each n times. */
  ghost function Visits(ring: seq<Entry>, n: nat): nat {
    if ring == [] then 0 else (if Awake(ring[0]) then n else 0) + Visits(ring[1..], n)
  }

  /** How often the walk passed somebody before it stood at place d after so many whole laps. */
  ghost function Passes(ring: seq<Entry>, d: nat, laps: nat): nat
    requires d <= |ring|
  {
    Visits(ring[d..], laps) + Visits(ring[..d], laps + 1)
  }

  lemma {:induction false} WalkedAppend(a: seq<Entry>, b: seq<Entry>, n: nat)
    ensures Walked(a + b, n) == Walked(a, n) + Walked(b, n)
  {
    if a == [] || n == 0 {
      assert a == [] ==> a + b == b;
    } else {
      WalkedAppend(a[1..], b, n);
      assert (a + b)[1..] == a[1..] + b;
    }
  }

  lemma {:induction false} VisitsAppend(a: seq<Entry>, b: seq<Entry>, n: nat)
    ensures Visits(a + b, n) == Visits(a, n) + Visits(b, n)
  {
    if a == [] {
      assert a + b == b;
    } else {
      VisitsAppend(a[1..], b, n);
      assert (a + b)[1..] == a[1..] + b;
    }
  }

  lemma {:induction false} NoVisits(ring: seq<Entry>)
    ensures Visits(ring, 0) == 0
  {
    if ring != [] {
      NoVisits(ring[1..]);
    }
  }

  /** What passing the entry n times leaves of it. */
  ghost function Remains(e: Entry, n: nat): seq<Entry> {
    if n > 0 && e.status == Deleted then [] else [PassedBy(e, n)]
  }

  lemma WalkedOne(e: Entry, n: nat)
    ensures Walked([e], n) == Remains(e, n)
    ensures Visits([e], n) == if Awake(e) then n else 0
  {
    assert [e][1..] == [];
  }

  lemma WalkedTwice(e: Entry, n: nat)
    ensures Walked(Remains(e, 1), n) == Remains(e, n + 1)
    ensures Visits(Remains(e, 1), n) + (if Awake(e) then 1 else 0) == if Awake(e) then n + 1 else 0
  {
    WalkedOne(PassedBy(e, 1), n);
  }

  /** The walk that goes on after the first entry is the walk that began with it. */
  lemma WalkGoesOn(e: Entry, rest: seq<Entry>, c: nat, laps: nat)
    requires c < |rest|
    ensures Turned(rest + Remains(e, 1), c, laps) == Turned([e] + rest, c + 1, laps)
    ensures Passes([e] + rest, c + 1, laps) == Passes(rest + Remains(e, 1), c, laps) + if Awake(e) then 1 else 0
  {
    var q, ring, tail := rest + Remains(e, 1), [e] + rest, Remains(e, 1);
    assert q[c + 1..] == rest[c + 1..] + tail && q[..c] == rest[..c] && q[c..] == rest[c..] + tail;
    assert ring[c + 2..] == rest[c + 1..] && ring[..c + 1] == [e] + rest[..c] && ring[c + 1..] == rest[c..];
    WalkedOne(e, laps + 1);
    WalkedTwice(e, laps);
    hide Walked;
    hide Visits;
    hide Remains;
    WalkedAppend(rest[c + 1..], tail, laps);
    WalkedAppend([e], rest[..c], laps + 1);
    VisitsAppend(rest[c..], tail, laps);
    VisitsAppend([e], rest[..c], laps + 1);
  }

  /** The walk that comes back to the first entry is in its next lap. */
  lemma WalkComesRound(e: Entry, rest: seq<Entry>, laps: nat)
    requires e.status != Deleted
    ensures Turned(rest + Remains(e, 1), |rest|, laps) == Turned([e] + rest, 0, laps + 1)
    ensures Passes([e] + rest, 0, laps + 1) == Passes(rest + Remains(e, 1), |rest|, laps) + if Awake(e) then 1 else 0
  {
    var q, ring, tail := rest + Remains(e, 1), [e] + rest, Remains(e, 1);
    assert q[|rest| + 1..] == [] && q[..|rest|] == rest && q[|rest|..] == tail;
    assert ring[1..] == rest && ring[..0] == [] && ring[0..] == ring;
    WalkedOne(e, laps + 1);
    WalkedTwice(e, laps);
    hide Remains;
    VisitsAppend([e], rest, laps + 1);
  }

  // ---------------------------------------------------------------- priorities and counters

  /** The walk came by place i before it stood at place d after so many whole laps. */
  predicate CameBy(i: nat, d: nat, laps: nat) {
    i < d || laps > 0
  }

  /** Nobody whom the walk passed over was passed over more than 50 times. */
  ghost predicate WithinLimit(ring: seq<Entry>, d: nat, laps: nat) {
    forall i: nat | i < |ring| && Awake(ring[i]) && CameBy(i, d, laps) ::
      ring[i].starvation + laps + (if i < d then 1 else 0) <= 50
  }

  /** Nobody whom the walk passed over has the priority. */
  ghost predicate NonePassed(ring: seq<Entry>, d: nat, laps: nat, priority: int) {
    forall i: nat | i < |ring| && Awake(ring[i]) && CameBy(i, d, laps) :: ring[i].priority != priority
  }

  /** Deleted entries before the first one that can run. */
  ghost function Dropped(ring: seq<Entry>): nat {
    if ring == [] || Awake(ring[0]) then 0 else (if ring[0].status == Deleted then 1 else 0) + Dropped(ring[1..])
  }

  /** How many processes there are when the walk comes to the first one that can run. */
  ghost function Present(s: Sched): int {
    s.processNumber - Dropped(s.ring)
  }

  /** The priority served at that moment: the highest one, if the number of processes has changed since the last call. */
  ghost function InForce(s: Sched): int {
    if s.processes == Present(s) then s.priorityHandling else 1
  }

  /** Priority p and count c after n more processes have been handled without a match, out of the given number. */
  ghost function Level(p: int, c: int, processes: int, n: nat): (int, int)
    decreases n
  {
    if n == 0 then (p, c)
    else if c + 1 >= processes && p != 3 then Level(p + 1, 0, processes, n - 1)
    else Level(p, c + 1, processes, n - 1)
  }

  lemma {:induction false} LevelSinks(p: int, c: int, processes: int, n: nat)
    ensures Level(p, c, processes, n).0 >= p
    decreases n
  {
    if n > 0 {
      LevelSinks(p, c + 1, processes, n - 1);
      LevelSinks(p + 1, 0, processes, n - 1);
    }
  }

  /**
   * The call leads from s to t by selecting the entry at place d after so many whole laps, because it is
   * overdue or because it has the priority then served.
   */
  ghost predicate Selects(s: Sched, t: Sched, d: nat, laps: nat, overdue: bool) {
    && d < |s.ring| && Awake(s.ring[d])
    && t.ring == [s.ring[d].(starvation := if overdue then 0 else s.ring[d].starvation + laps)] + Turned(s.ring, d, laps)
    && t.processes == t.processNumber == s.processNumber - (|s.ring| - |t.ring|)
    && (if overdue then s.ring[d].starvation + laps >= 50
        else s.ring[d].priority == t.priorityHandling && t.counter == 0)
    && WithinLimit(s.ring, d, laps)
  }

  /** What the walk has counted, unless it removed a process after the first one that can run. */
  ghost predicate Counts(s: Sched, t: Sched, d: nat, laps: nat, overdue: bool)
    requires d <= |s.ring|
  {
    var handled := Passes(s.ring, d, laps) + if overdue then 1 else 0;
    var (p, c) := Level(InForce(s), s.counter, Present(s), handled);
    && t.processNumber <= Present(s)
    && (t.processNumber == Present(s) ==>
          && t.priorityHandling == p && (overdue ==> t.counter == c)
          && (p == InForce(s) ==> NonePassed(s.ring, d, laps, p)))
  }

  /** Unless the entry is passed at once, the walk has come by it and goes on. */
  lemma LimitsGoOn(e: Entry, rest: seq<Entry>, c: nat, laps: nat, p: int)
    requires Awake(e) ==> e.starvation + 1 <= 50
    requires c < |rest| && WithinLimit(rest + Remains(e, 1), c, laps)
    ensures WithinLimit([e] + rest, c + 1, laps)
    ensures (Awake(e) ==> e.priority != p) && NonePassed(rest + Remains(e, 1), c, laps, p) ==>
              NonePassed([e] + rest, c + 1, laps, p)
  {
    var q, ring := rest + Remains(e, 1), [e] + rest;
    assert e.status != Deleted ==> q[|rest|] == PassedBy(e, 1);
    forall i: nat | i < |ring| && Awake(ring[i]) && CameBy(i, c + 1, laps)
      ensures ring[i].starvation + laps + (if i < c + 1 then 1 else 0) <= 50
      ensures (Awake(e) ==> e.priority != p) && NonePassed(q, c, laps, p) ==> ring[i].priority != p
    {
      if i > 0 {
        assert ring[i] == q[i - 1] && CameBy(i - 1, c, laps);
      } else if laps > 0 {
        assert CameBy(|rest|, c, laps);
      }
    }
  }

  lemma LimitsComeRound(e: Entry, rest: seq<Entry>, laps: nat, p: int)
    requires Awake(e) && e.starvation + 1 <= 50
    requires WithinLimit(rest + Remains(e, 1), |rest|, laps)
    ensures WithinLimit([e] + rest, 0, laps + 1)
    ensures e.priority != p && NonePassed(rest + Remains(e, 1), |rest|, laps, p) ==> NonePassed([e] + rest, 0, laps + 1, p)
  {
    var q, ring := rest + Remains(e, 1), [e] + rest;
    assert q[|rest|] == PassedBy(e, 1);
    forall i: nat | i < |ring| && Awake(ring[i])
      ensures ring[i].starvation + laps + 1 <= 50
      ensures e.priority != p && NonePassed(q, |rest|, laps, p) ==> ring[i].priority != p
    {
      if i > 0 {
        assert ring[i] == q[i - 1] && CameBy(i - 1, |rest|, laps);
      } else if laps > 0 {
        assert CameBy(|rest|, |rest|, laps);
      }
    }
  }

  lemma {:induction false} DroppedFront(a: seq<Entry>, b: seq<Entry>, i: nat)
    requires i < |a| && Awake(a[i])
    ensures Dropped(a + b) == Dropped(a)
  {
    if !Awake(a[0]) {
      DroppedFront(a[1..], b, i - 1);
      assert (a + b)[1..] == a[1..] + b;
    }
  }

  // ---------------------------------------------------------------- every selection

  /** The first entry cannot run: the call from there on is the call from the next entry on. */
  lemma SkippedWalks(s: Sched, t: Sched, c: nat, laps: nat, overdue: bool)
    requires s.ring != [] && !Awake(s.ring[0])
    requires Selects(PassOver(s), t, c, laps, overdue) && Counts(PassOver(s), t, c, laps, overdue)
    ensures Selects(s, t, c + 1, laps, overdue) && Counts(s, t, c + 1, laps, overdue)
    ensures c + 1 < |s.ring| && Awake(s.ring[c + 1])
  {
    var e, rest, u := s.ring[0], s.ring[1..], PassOver(s);
    assert s.ring == [e] + rest && u.ring == rest + Remains(e, 1);
    assert u.ring[c] == rest[c];
    WalkGoesOn(e, rest, c, laps);
    LimitsGoOn(e, rest, c, laps, InForce(s));
    DroppedFront(rest, Remains(e, 1), c);
  }

  /** Entries before the first one that can run. */
  ghost function First(ring: seq<Entry>): nat {
    if ring == [] || Awake(ring[0]) then 0 else 1 + First(ring[1..])
  }

  lemma {:induction false} FirstFront(a: seq<Entry>, b: seq<Entry>, i: nat)
    requires i < |a| && Awake(a[i])
    ensures First(a + b) == First(a) < |a|
  {
    if !Awake(a[0]) {
      FirstFront(a[1..], b, i - 1);
      assert (a + b)[1..] == a[1..] + b;
    }
  }

  /**
   * The first process that can run is selected without any walk exactly when it has the priority in force or
   * is overdue; if it has the priority, it is selected for that.
   */
  ghost predicate AtOnce(s: Sched, d: nat, laps: nat, overdue: bool) {
    var f := First(s.ring);
    && f < |s.ring|
    && (d == f && laps == 0 <==> s.ring[f].priority == InForce(s) || s.ring[f].starvation >= 50)
    && (d == f && laps == 0 ==> (overdue <==> s.ring[f].priority != InForce(s)))
  }

  lemma SkippedAtOnce(s: Sched, c: nat, laps: nat, overdue: bool)
    requires s.ring != [] && !Awake(s.ring[0]) && c + 1 < |s.ring| && Awake(s.ring[c + 1])
    requires AtOnce(PassOver(s), c, laps, overdue)
    ensures AtOnce(s, c + 1, laps, overdue)
  {
    var e, rest := s.ring[0], s.ring[1..];
    assert PassOver(s).ring == rest + Remains(e, 1) && rest[c] == s.ring[c + 1];
    DroppedFront(rest, Remains(e, 1), c);
    FirstFront(rest, Remains(e, 1), c);
    assert PassOver(s).ring[First(rest)] == s.ring[First(s.ring)];
  }

  /** The entry at the front can run, but is neither the one served nor overdue; u is the state once it is passed. */
  ghost predicate PassesFirst(s: Sched, u: Sched) {
    && s.ring != [] && Awake(s.ring[0]) && s.ring[0].priority != InForce(s) && s.ring[0].starvation + 1 <= 50
    && u.ring == s.ring[1..] + Remains(s.ring[0], 1)
    && u.processes == u.processNumber == s.processNumber
    && (u.priorityHandling, u.counter) == Level(InForce(s), s.counter, s.processNumber, 1)
  }

  lemma PassedCounts(s: Sched, u: Sched, t: Sched, c: nat, laps: nat, overdue: bool, d: nat, l: nat)
    requires PassesFirst(s, u) && c <= |u.ring| && Counts(u, t, c, laps, overdue)
    requires d <= |s.ring| && Passes(s.ring, d, l) == Passes(u.ring, c, laps) + 1
    requires NonePassed(u.ring, c, laps, InForce(s)) ==> NonePassed(s.ring, d, l, InForce(s))
    ensures Counts(s, t, d, l, overdue)
  {
    hide Passes;
    hide NonePassed;
    hide Remains;
    LevelSinks(u.priorityHandling, u.counter, s.processNumber, Passes(u.ring, c, laps) + if overdue then 1 else 0);
  }

  /** The first entry is passed over: what the walk from the next entry on finds is what the whole walk finds. */
  lemma PassedWalks(s: Sched, u: Sched, t: Sched, c: nat, laps: nat, overdue: bool)
    requires PassesFirst(s, u) && c + 1 < |s.ring|
    requires Selects(u, t, c, laps, overdue) && Counts(u, t, c, laps, overdue)
    ensures Selects(s, t, c + 1, laps, overdue) && Counts(s, t, c + 1, laps, overdue)
  {
    var e, rest := s.ring[0], s.ring[1..];
    assert s.ring == [e] + rest && u.ring[c] == rest[c];
    WalkGoesOn(e, rest, c, laps);
    LimitsGoOn(e, rest, c, laps, InForce(s));
    PassedCounts(s, u, t, c, laps, overdue, c + 1, laps);
    hide Counts;
    hide Turned;
    hide WithinLimit;
  }

  /** The same when it finds the first entry again. */
  lemma PassedComesRound(s: Sched, u: Sched, t: Sched, c: nat, laps: nat, overdue: bool)
    requires PassesFirst(s, u) && c + 1 == |s.ring|
    requires Selects(u, t, c, laps, overdue) && Counts(u, t, c, laps, overdue)
    ensures Selects(s, t, 0, laps + 1, overdue) && Counts(s, t, 0, laps + 1, overdue)
  {
    var e, rest := s.ring[0], s.ring[1..];
    assert s.ring == [e] + rest && u.ring[c] == PassedBy(e, 1);
    WalkComesRound(e, rest, laps);
    LimitsComeRound(e, rest, laps, InForce(s));
    PassedCounts(s, u, t, c, laps, overdue, 0, laps + 1);
    hide Counts;
    hide Turned;
    hide WithinLimit;
  }

  /** The first entry is taken at once. */
  lemma TakenAtOnce(s: Sched, t: Sched, overdue: bool)
    requires s.ring != [] && Awake(s.ring[0])
    requires overdue <==> s.ring[0].priority != InForce(s)
    requires overdue ==> s.ring[0].starvation >= 50
    requires t.ring == (if overdue then s.ring[0 := s.ring[0].(starvation := 0)] else s.ring)
    requires t.processes == t.processNumber == s.processNumber
    requires (t.priorityHandling, t.counter) ==
             if overdue then Level(InForce(s), s.counter, s.processNumber, 1) else (InForce(s), 0)
    ensures Selects(s, t, 0, 0, overdue) && Counts(s, t, 0, 0, overdue) && AtOnce(s, 0, 0, overdue)
  {
    assert s.ring[..0] == [] && s.ring[0..] == s.ring && t.ring[1..] == s.ring[1..];
    assert t.ring == [t.ring[0]] + t.ring[1..];
    NoVisits(s.ring);
  }

  lemma NotAtOnce(s: Sched, u: Sched, d: nat, laps: nat, overdue: bool)
    requires PassesFirst(s, u) && (d > 0 || laps > 0)
    ensures AtOnce(s, d, laps, overdue)
  {
  }

  lemma PassedFirst(s: Sched, r: Sched)
    requires s.ring != [] && Runnable(s.ring[0]) && r == Refresh(s) && !Matches(r) && !Starved(r)
    ensures PassesFirst(s, Passed(r)) && |Passed(r).ring| == |s.ring|
  {
    var e := Starve(s.ring[0]);
    assert Passed(r).ring == s.ring[1..] + [e];
    assert Level(InForce(s), s.counter, s.processNumber, 1) == (Count(r).priorityHandling, Count(r).counter);
  }

  lemma ChosenFirst(s: Sched, r: Sched)
    requires s.ring != [] && Runnable(s.ring[0]) && r == Refresh(s) && (Matches(r) || Starved(r))
    ensures Selects(s, Chosen(r), 0, 0, !Matches(r)) && Counts(s, Chosen(r), 0, 0, !Matches(r))
    ensures AtOnce(s, 0, 0, !Matches(r))
  {
    assert Level(InForce(s), s.counter, s.processNumber, 1) == (Count(r).priorityHandling, Count(r).counter);
    TakenAtOnce(s, Chosen(r), !Matches(r));
  }

  /** Every call walks around the ring and selects, as the closed form says. */
  lemma {:induction false} SelectionWalks(s: Sched) returns (d: nat, laps: nat, overdue: bool)
    requires SomeRunnable(s.ring)
    ensures d < |s.ring| && Selects(s, SetNext(s), d, laps, overdue) && Counts(s, SetNext(s), d, laps, overdue)
    ensures AtOnce(s, d, laps, overdue)
    decreases TotalSlack(s.ring), Distance(s.ring)
  {
    hide Selects;
    hide Counts;
    hide PassesFirst;
    hide AtOnce;
    hide Visits;
    hide Walked;
    hide Level;
    hide Dropped;
    if !Runnable(s.ring[0]) {
      PassOverFacts(s);
      assert SetNext(s) == SetNext(PassOver(s));
      var c;
      c, laps, overdue := SelectionWalks(PassOver(s));
      SkippedWalks(s, SetNext(s), c, laps, overdue);
      SkippedAtOnce(s, c, laps, overdue);
      d := c + 1;
    } else {
      var r := Refresh(s);
      if Matches(r) || Starved(r) {
        assert SetNext(s) == Chosen(r);
        d, laps, overdue := 0, 0, !Matches(r);
        ChosenFirst(s, r);
      } else {
        PassedFacts(r);
        assert SetNext(s) == SetNext(Passed(r));
        var c;
        c, laps, overdue := SelectionWalks(Passed(r));
        PassedFirst(s, r);
        if c + 1 < |s.ring| {
          PassedWalks(s, Passed(r), SetNext(s), c, laps, overdue);
          d := c + 1;
        } else {
          PassedComesRound(s, Passed(r), SetNext(s), c, laps, overdue);
          d, laps := 0, laps + 1;
        }
        NotAtOnce(s, Passed(r), d, laps, overdue);
      }
    }
  }

  /** The priority served sinks by one each time that as many processes as there are have been handled without a match. */
  lemma {:induction false} LevelClosed(p: int, c: int, processes: int, n: nat)
    requires 1 <= p <= 3 && 0 <= c < processes
    ensures var (q, e) := Level(p, c, processes, n);
            p <= q <= 3 && 0 <= e == c + n - (q - p) * processes && (q < 3 ==> e < processes)
    decreases n
  {
    if p == 3 {
      LevelLowest(c, processes, n);
    } else if n > 0 {
      if c + 1 >= processes {
        LevelClosed(p + 1, 0, processes, n - 1);
        var q := Level(p + 1, 0, processes, n - 1).0;
        assert (q - p) * processes == (q - (p + 1)) * processes + processes;
      } else {
        LevelClosed(p, c + 1, processes, n - 1);
      }
    }
  }

  lemma {:induction false} LevelLowest(c: int, processes: int, n: nat)
    ensures Level(3, c, processes, n) == (3, c + n)
    decreases n
  {
    if n > 0 {
      LevelLowest(c + 1, processes, n - 1);
    }
  }

  /**
   * Nobody of the priority served is passed over: if the first process that can run has that priority, it is
   * selected, as it was; and as long as the priority does not sink during the call and no further process
   * is removed, nobody who can run and has it comes before the process selected.
   */
  lemma NobodyServedIsPassed(s: Sched) returns (d: nat, laps: nat)
    requires SomeRunnable(s.ring)
    ensures d < |s.ring| && Awake(s.ring[d]) && SetNext(s).ring[0].pid == s.ring[d].pid
    ensures First(s.ring) < |s.ring|
    ensures s.ring[First(s.ring)].priority == InForce(s) ==> d == First(s.ring) && SetNext(s).ring[0] == s.ring[d]
    ensures SetNext(s).processNumber == Present(s) && SetNext(s).priorityHandling == InForce(s) ==>
              forall i: nat | i < |s.ring| && Awake(s.ring[i]) && (i < d || laps > 0) :: s.ring[i].priority != InForce(s)
    ensures laps > 0 || d > First(s.ring) ==> s.ring[First(s.ring)].priority != InForce(s)
  {
    var overdue;
    d, laps, overdue := SelectionWalks(s);
    hide Turned;
    forall i: nat | i < |s.ring| && Awake(s.ring[i]) && (i < d || laps > 0)
      ensures SetNext(s).processNumber == Present(s) && SetNext(s).priorityHandling == InForce(s) ==>
                s.ring[i].priority != InForce(s)
    {
      assert CameBy(i, d, laps);
    }
  }

  // ---------------------------------------------------------------- ticks, yields and kills

  /** How often the entry selected has been passed over since its last turn for that. */
  ghost function Starvation(e: Entry, laps: nat, overdue: bool): nat {
    if overdue then 0 else e.starvation + laps
  }

  /** The entry of the process whose turn ends. */
  ghost function Outgoing(e: Entry): Entry {
    e.(quantum := 1, status := if e.status == Running then Ready else e.status)
  }

  /**
   * The call leads from the ring of s to that of t, with the given entry in front: the one at place d after so
   * many whole laps, changed as the call does.
   */
  ghost predicate Turns(s: Sched, t: Sched, chosen: Entry, d: nat, laps: nat, overdue: bool) {
    && d < |s.ring| && Awake(s.ring[d])
    && t.ring == [chosen] + Turned(s.ring, d, laps)
    && t.processes == t.processNumber == s.processNumber - (|s.ring| - |t.ring|)
    && (if overdue then s.ring[d].starvation + laps >= 50
        else s.ring[d].priority == t.priorityHandling && t.counter == 0)
    && WithinLimit(s.ring, d, laps) && Counts(s, t, d, laps, overdue) && AtOnce(s, d, laps, overdue)
  }

  lemma SwitchWalks(s: Sched, x: seq<Entry>) returns (d: nat, laps: nat, overdue: bool)
    requires SomeRunnable(s.ring) && x == s.ring[1..] + [Outgoing(s.ring[0])]
    ensures d < |x|
    ensures Turns(s.(ring := x), Switch(s), x[d].(starvation := Starvation(x[d], laps, overdue), status := Running),
                  d, laps, overdue)
  {
    ExpireKeepsRunnable(s);
    assert Expire(s) == s.(ring := x);
    d, laps, overdue := SelectionWalks(Expire(s));
    hide Turned;
    hide WithinLimit;
    hide AtOnce;
    hide Passes;
    hide NonePassed;
    hide InForce;
    hide Present;
  }

  /**
   * One tick: within its quantum a process only loses one of it.  Otherwise it goes to the end of the ring with
   * a new quantum, ready again if it was running; and the process selected from the next one on is running.
   */
  lemma TickWalks(s: Sched) returns (d: nat, laps: nat, overdue: bool)
    requires TickEnds(s)
    ensures s.ring == [] ==> Tick(s) == s
    ensures s.ring != [] && s.ring[0].quantum > 1 ==>
              Tick(s) == s.(ring := s.ring[0 := s.ring[0].(quantum := s.ring[0].quantum - 1)])
    ensures s.ring != [] && s.ring[0].quantum <= 1 ==>
              var x := s.ring[1..] + [Outgoing(s.ring[0])];
              && d < |x|
              && Turns(s.(ring := x), Tick(s), x[d].(starvation := Starvation(x[d], laps, overdue), status := Running),
                       d, laps, overdue)
  {
    d, laps, overdue := 0, 0, false;
    if s.ring != [] && s.ring[0].quantum <= 1 {
      var x := s.ring[1..] + [Outgoing(s.ring[0])];
      assert UseQuantum(s).ring[1..] + [Outgoing(UseQuantum(s).ring[0])] == x;
      hide Turns;
      d, laps, overdue := SwitchWalks(UseQuantum(s), x);
      assert UseQuantum(s).(ring := x) == s.(ring := x);
    }
  }

  /** The ring behind a process that yields: the next one has one more quantum. */
  ghost function Favoured(rest: seq<Entry>): seq<Entry> {
    if rest == [] then [] else [rest[0].(quantum := rest[0].quantum + 1)] + rest[1..]
  }

  /**
   * One yield: the next process in the ring gets one more quantum, whoever is selected, and the current one
   * loses its own; with the tick that follows the current one goes to the end with a new quantum, ready again
   * if it was running.
   */
  lemma YieldWalks(s: Sched) returns (d: nat, laps: nat, overdue: bool)
    requires SomeRunnable(s.ring)
    ensures Donate(s) == s.(ring := [s.ring[0].(quantum := 0)] + Favoured(s.ring[1..]))
    ensures var x := Favoured(s.ring[1..]) + [Outgoing(s.ring[0])];
            && d < |x|
            && Turns(s.(ring := x), Tick(Donate(s)),
                     x[d].(starvation := Starvation(x[d], laps, overdue), status := Running), d, laps, overdue)
  {
    var x := Favoured(s.ring[1..]) + [Outgoing(s.ring[0])];
    assert Donate(s).ring[1..] == Favoured(s.ring[1..]);
    assert Donate(s).ring == [s.ring[0].(quantum := 0)] + Favoured(s.ring[1..]);
    assert Outgoing(Donate(s).ring[0]) == Outgoing(s.ring[0]);
    hide Turns;
    d, laps, overdue := TickWalks(Donate(s));
    assert Donate(s).(ring := x) == s.(ring := x);
  }

  /** One kill: the current process is gone, and the one selected from the next one on gets one more quantum. */
  lemma KillWalks(s: Sched) returns (d: nat, laps: nat, overdue: bool)
    requires |s.ring| >= 2 && SomeRunnable(s.ring[1..])
    ensures var x := s.ring[1..];
            && d < |x|
            && Turns(s.(ring := x, processNumber := s.processNumber - 1), Kill(s),
                     x[d].(starvation := Starvation(x[d], laps, overdue), quantum := x[d].quantum + 1), d, laps, overdue)
  {
    d, laps, overdue := SelectionWalks(s.(ring := s.ring[1..], processNumber := s.processNumber - 1));
    hide Turned;
    hide WithinLimit;
    hide AtOnce;
    hide Passes;
    hide NonePassed;
    hide InForce;
    hide Present;
  }
}
