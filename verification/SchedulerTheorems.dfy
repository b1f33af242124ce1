/**
 * What the scheduler promises: the ring keeps its order and loses deleted
 * processes only, exactly one process runs, and no ready process waits forever.
 */
module SchedulerTheorems {
  import opened Processes
  import opened SchedulerSpec

  // ---------------------------------------------------------------- order of the ring

  /** Process numbers of the entries that are not deleted, in ring order. */
  ghost function Kept(ring: seq<Entry>): seq<nat> {
    if ring == [] then [] else
      (if ring[0].status == Deleted then [] else [ring[0].pid]) + Kept(ring[1..])
  }

  ghost function Turn(a: seq<nat>, k: nat): seq<nat>
    requires k <= |a|
  {
    a[k..] + a[..k]
  }

  /** b is a turned some way round. */
  ghost predicate SameCycle(a: seq<nat>, b: seq<nat>) {
    exists k: nat :: k <= |a| && b == Turn(a, k)
  }

  lemma SameCycleRefl(a: seq<nat>)
    ensures SameCycle(a, a)
  {
    assert Turn(a, 0) == a;
  }

  lemma TurnTwice(a: seq<nat>, k: nat, m: nat)
    requires k <= |a| && m <= |a|
    ensures SameCycle(a, Turn(Turn(a, k), m))
  {
    var b := Turn(a, k);
    if k + m <= |a| {
      assert b[m..] == a[k + m..] + a[..k];
      assert b[..m] == a[k..k + m];
      assert a[..k] + a[k..k + m] == a[..k + m];
      assert Turn(b, m) == Turn(a, k + m);
    } else {
      var n := k + m - |a|;
      assert b[m..] == a[n..k];
      assert b[..m] == a[k..] + a[..n];
      assert a[n..k] + a[k..] == a[n..];
      assert Turn(b, m) == Turn(a, n);
    }
  }

  lemma SameCycleTrans(a: seq<nat>, b: seq<nat>, c: seq<nat>)
    requires SameCycle(a, b) && SameCycle(b, c)
    ensures SameCycle(a, c)
  {
    var k: nat :| k <= |a| && b == Turn(a, k);
    var m: nat :| m <= |b| && c == Turn(b, m);
    TurnTwice(a, k, m);
  }

  lemma {:induction false} KeptAppend(ring: seq<Entry>, e: Entry)
    ensures Kept(ring + [e]) == Kept(ring) + (if e.status == Deleted then [] else [e.pid])
  {
    if ring != [] {
      KeptAppend(ring[1..], e);
      assert (ring + [e])[1..] == ring[1..] + [e];
    }
  }

  /** Moving the first entry to the end, whatever else changes in it, keeps the cycle. */
  lemma TurnOnce(ring: seq<Entry>, e: Entry)
    requires ring != [] && e.pid == ring[0].pid && (e.status == Deleted <==> ring[0].status == Deleted)
    ensures SameCycle(Kept(ring), Kept(ring[1..] + [e]))
  {
    KeptAppend(ring[1..], e);
    if e.status == Deleted {
      SameCycleRefl(Kept(ring));
    } else {
      assert Kept(ring[1..] + [e]) == Turn(Kept(ring), 1);
    }
  }

  /** The ring has lost as many entries as the process table, all of them deleted ones. */
  ghost predicate LostDeletedOnly(s: Sched, t: Sched) {
    && SameCycle(Kept(s.ring), Kept(t.ring))
    && |s.ring| - |t.ring| == s.processNumber - t.processNumber
    && |t.ring| <= |s.ring|
  }

  lemma LostTrans(s: Sched, t: Sched, u: Sched)
    requires LostDeletedOnly(s, t) && LostDeletedOnly(t, u)
    ensures LostDeletedOnly(s, u)
  {
    SameCycleTrans(Kept(s.ring), Kept(t.ring), Kept(u.ring));
  }

  ghost predicate NoneRunning(ring: seq<Entry>) {
    forall i | 0 <= i < |ring| :: ring[i].status != Running
  }

  ghost predicate OnlyCurrentRunning(ring: seq<Entry>) {
    forall i | 1 <= i < |ring| :: ring[i].status != Running
  }

  lemma {:induction false} SkipKeepsCycle(s: Sched)
    requires SomeRunnable(s.ring)
    ensures LostDeletedOnly(s, Skip(s))
    ensures NoneRunning(s.ring) ==> NoneRunning(Skip(s).ring)
    decreases Distance(s.ring)
  {
    if Runnable(s.ring[0]) {
      SameCycleRefl(Kept(s.ring));
    } else {
      PassOverFacts(s);
      var t := PassOver(s);
      if s.ring[0].status == Deleted {
        SameCycleRefl(Kept(s.ring));
      } else {
        TurnOnce(s.ring, s.ring[0]);
      }
      SkipKeepsCycle(t);
      LostTrans(s, t, Skip(t));
    }
  }

  lemma PassedKeepsCycle(s: Sched)
    requires s.ring != []
    ensures LostDeletedOnly(s, Passed(s))
    ensures NoneRunning(s.ring) ==> NoneRunning(Passed(s).ring)
  {
    var e := Starve(s.ring[0]);
    assert s.ring[0 := e][1..] == s.ring[1..];
    TurnOnce(s.ring, e);
  }

  lemma ChosenKeepsCycle(s: Sched)
    requires s.ring != []
    ensures LostDeletedOnly(s, Chosen(s))
    ensures NoneRunning(s.ring) ==> NoneRunning(Chosen(s).ring)
  {
    assert Chosen(s).ring[1..] == s.ring[1..];
    SameCycleRefl(Kept(s.ring));
  }

  lemma {:induction false} SetNextKeepsCycle(s: Sched)
    requires SomeRunnable(s.ring)
    ensures LostDeletedOnly(s, SetNext(s))
    ensures NoneRunning(s.ring) ==> NoneRunning(SetNext(s).ring)
    decreases TotalSlack(s.ring)
  {
    SkipKeepsCycle(s);
    var t := Skip(s);
    var r := Refresh(t);
    if Matches(r) || Starved(r) {
      ChosenKeepsCycle(r);
      LostTrans(s, t, Chosen(r));
      assert SetNext(s) == Chosen(r);
    } else {
      PassedFacts(r);
      PassedKeepsCycle(r);
      SetNextKeepsCycle(Passed(r));
      LostTrans(s, t, Passed(r));
      LostTrans(s, Passed(r), SetNext(Passed(r)));
      assert SetNext(s) == SetNext(Passed(r));
    }
  }

  /**
   * Ring safety: after a quantum-expired switch the processes still form the same
   * cycle minus removed deleted ones, and the current process is the only running one.
   */
  lemma SwitchSafety(s: Sched)
    requires SomeRunnable(s.ring) && OnlyCurrentRunning(s.ring)
    ensures LostDeletedOnly(s, Switch(s))
    ensures Switch(s).ring[0].status == Running && OnlyCurrentRunning(Switch(s).ring)
  {
    ExpireKeepsRunnable(s);
    var x := Expire(s);
    TurnOnce(s.ring, x.ring[|x.ring| - 1]);
    assert x.ring == s.ring[1..] + [x.ring[|x.ring| - 1]];
    assert forall i | 0 <= i < |s.ring| - 1 :: x.ring[i] == s.ring[i + 1];
    SetNextKeepsCycle(x);
    var t := SetNext(x);
    assert MarkRunning(t).ring[1..] == t.ring[1..];
    LostTrans(s, x, t);
  }

  /** Killing the current process removes it alone; the next one is ready to run. */
  lemma KillSafety(s: Sched)
    requires |s.ring| >= 2 && SomeRunnable(s.ring[1..])
    ensures SameCycle(Kept(s.ring[1..]), Kept(Kill(s).ring))
    ensures |s.ring| - |Kill(s).ring| == s.processNumber - Kill(s).processNumber >= 1
    ensures Runnable(Kill(s).ring[0])
  {
    var k := s.(ring := s.ring[1..], processNumber := s.processNumber - 1);
    SetNextKeepsCycle(k);
    assert Kill(s).ring[1..] == SetNext(k).ring[1..];
  }

  /** A yield always ends the turn of the current process, whatever its quantum was. */
  lemma YieldSwitches(s: Sched)
    requires SomeRunnable(s.ring)
    ensures Tick(Donate(s)) == Switch(UseQuantum(Donate(s)))
    ensures Kept(UseQuantum(Donate(s)).ring) == Kept(s.ring)
  {
    KeptOfPids(s.ring, UseQuantum(Donate(s)).ring);
  }

  /** The order of the ring depends on process numbers and deletions only. */
  lemma {:induction false} KeptOfPids(r: seq<Entry>, q: seq<Entry>)
    requires |r| == |q|
    requires forall i | 0 <= i < |r| :: r[i].pid == q[i].pid && (r[i].status == Deleted <==> q[i].status == Deleted)
    ensures Kept(r) == Kept(q)
  {
    if r != [] {
      KeptOfPids(r[1..], q[1..]);
    }
  }

  // ---------------------------------------------------------------- priorities

  /** Of all that can run, the entry at place d has been passed over most often; ties go to the first. */
  ghost predicate MostStarved(ring: seq<Entry>, d: nat) {
    && d < |ring| && Runnable(ring[d])
    && (forall i | 0 <= i < |ring| && Runnable(ring[i]) :: ring[i].starvation <= ring[d].starvation)
    && (forall i | 0 <= i < d && Runnable(ring[i]) :: ring[i].starvation < ring[d].starvation)
  }

  lemma MostStarvedPassedOver(s: Sched, c: nat)
    requires SomeRunnable(s.ring) && !Runnable(s.ring[0])
    requires c < |PassOver(s).ring| && Runnable(PassOver(s).ring[c])
    ensures c + 1 < |s.ring| && s.ring[c + 1] == PassOver(s).ring[c]
    ensures MostStarved(PassOver(s).ring, c) ==> MostStarved(s.ring, c + 1)
  {
    var q := PassOver(s).ring;
    forall i | 1 <= i < |s.ring| ensures i - 1 < |q| && s.ring[i] == q[i - 1] {
    }
    if MostStarved(q, c) {
      forall i | 0 <= i < |s.ring| && Runnable(s.ring[i])
        ensures s.ring[i].starvation <= s.ring[c + 1].starvation
        ensures i < c + 1 ==> s.ring[i].starvation < s.ring[c + 1].starvation
      {
        assert s.ring[i] == q[i - 1];
      }
    }
  }

  /** Skipping drops or moves back only processes that cannot run. */
  lemma {:induction false} MostStarvedSkipped(s: Sched, c: nat) returns (d: nat)
    requires SomeRunnable(s.ring) && c < |Skip(s).ring| && Runnable(Skip(s).ring[c])
    ensures d < |s.ring| && s.ring[d] == Skip(s).ring[c]
    ensures MostStarved(Skip(s).ring, c) ==> MostStarved(s.ring, d)
    decreases Distance(s.ring)
  {
    if Runnable(s.ring[0]) {
      d := c;
    } else {
      PassOverFacts(s);
      var e := MostStarvedSkipped(PassOver(s), c);
      MostStarvedPassedOver(s, e);
      d := e + 1;
    }
  }

  lemma MostStarvedPassed(r: Sched, c: nat) returns (d: nat)
    requires r.ring != [] && Runnable(r.ring[0]) && !Starved(r) && c < |Passed(r).ring|
    ensures d < |r.ring| && r.ring[d].pid == Passed(r).ring[c].pid
    ensures Runnable(Passed(r).ring[c]) ==> Runnable(r.ring[d])
    ensures MostStarved(Passed(r).ring, c) ==> MostStarved(r.ring, d)
  {
    var q, last := Passed(r).ring, |r.ring| - 1;
    assert q == r.ring[1..] + [Starve(r.ring[0])];
    assert q[last] == Starve(r.ring[0]);
    d := if c == last then 0 else c + 1;
    if MostStarved(q, c) {
      forall i | 0 <= i < |r.ring| && Runnable(r.ring[i])
        ensures r.ring[i].starvation <= r.ring[d].starvation
        ensures i < d ==> r.ring[i].starvation < r.ring[d].starvation
      {
        assert i > 0 ==> q[i - 1] == r.ring[i];
      }
    }
  }

  /**
   * Who is selected, in terms of the ring before: either its priority is the one now served,
   * or of all processes that can run it had been passed over most often, ties going to the
   * first in ring order.
   */
  lemma {:induction false} SelectionJustified(s: Sched) returns (d: nat)
    requires SomeRunnable(s.ring) && NoneOverdue(s.ring)
    ensures d < |s.ring| && Runnable(s.ring[d]) && s.ring[d].pid == SetNext(s).ring[0].pid
    ensures var t := SetNext(s);
            (t.ring[0].priority == t.priorityHandling && t.counter == 0) || MostStarved(s.ring, d)
    decreases TotalSlack(s.ring)
  {
    SkipKeepsStarvation(s);
    var r := Refresh(Skip(s));
    var c := 0;
    if Matches(r) || Starved(r) {
      assert SetNext(s) == Chosen(r);
    } else {
      PassedFacts(r);
      var b := SelectionJustified(Passed(r));
      assert SetNext(s) == SetNext(Passed(r));
      c := MostStarvedPassed(r, b);
    }
    d := MostStarvedSkipped(s, c);
  }

  /** Skipping leaves the priority served alone, and only deleted processes leave the count. */
  lemma {:induction false} SkipKeepsPriority(s: Sched)
    requires SomeRunnable(s.ring)
    ensures Skip(s).priorityHandling == s.priorityHandling && Skip(s).processes == s.processes
    ensures Skip(s).processNumber <= s.processNumber
    decreases Distance(s.ring)
  {
    if !Runnable(s.ring[0]) {
      PassOverFacts(s);
      SkipKeepsPriority(PassOver(s));
    }
  }

  /**
   * The priority served only ever moves towards the lowest one, until the number of
   * processes changes: after that has been reached nobody is served by a higher priority.
   */
  lemma {:induction false} PriorityOnlySinks(s: Sched)
    requires SomeRunnable(s.ring) && 1 <= s.priorityHandling <= LOWEST_PRIORITY
    ensures var t := SetNext(s);
            && 1 <= t.priorityHandling <= LOWEST_PRIORITY
            && t.processes == t.processNumber <= s.processNumber
            && (s.processes == s.processNumber == t.processNumber ==> s.priorityHandling <= t.priorityHandling)
    decreases TotalSlack(s.ring)
  {
    SkipKeepsPriority(s);
    var r := Refresh(Skip(s));
    if Matches(r) || Starved(r) {
      assert SetNext(s) == Chosen(r);
    } else {
      PassedFacts(r);
      PriorityOnlySinks(Passed(r));
      assert SetNext(s) == SetNext(Passed(r));
    }
  }

  // ---------------------------------------------------------------- starvation counters

  /** Nobody has been passed over more often than allowed. */
  ghost predicate NoneOverdue(ring: seq<Entry>) {
    forall i | 0 <= i < |ring| :: ring[i].starvation <= MAX_STARVATION
  }

  lemma {:induction false} SkipKeepsStarvation(s: Sched)
    requires SomeRunnable(s.ring) && NoneOverdue(s.ring)
    ensures NoneOverdue(Skip(s).ring)
    decreases Distance(s.ring)
  {
    if !Runnable(s.ring[0]) {
      PassOverFacts(s);
      SkipKeepsStarvation(PassOver(s));
    }
  }

  lemma {:induction false} SetNextKeepsStarvation(s: Sched)
    requires SomeRunnable(s.ring) && NoneOverdue(s.ring)
    ensures NoneOverdue(SetNext(s).ring)
    decreases TotalSlack(s.ring)
  {
    SkipKeepsStarvation(s);
    var r := Refresh(Skip(s));
    if Matches(r) || Starved(r) {
      assert SetNext(s) == Chosen(r);
    } else {
      PassedFacts(r);
      SetNextKeepsStarvation(Passed(r));
      assert SetNext(s) == SetNext(Passed(r));
    }
  }

  /** A tick leaves every starvation counter within its limit, so that every ready process Waits. */
  lemma TickKeepsStarvation(s: Sched)
    requires TickEnds(s) && NoneOverdue(s.ring)
    ensures NoneOverdue(Tick(s).ring)
  {
    if s.ring != [] {
      var t := UseQuantum(s);
      assert NoneOverdue(t.ring);
      if Expires(s) {
        ExpireKeepsRunnable(t);
        assert NoneOverdue(Expire(t).ring);
        SetNextKeepsStarvation(Expire(t));
      }
    }
  }

  // ---------------------------------------------------------------- bounded waiting

  /** The entry at place d is process p, ready to run, and not yet overdue. */
  ghost predicate Waits(s: Sched, p: nat, d: nat) {
    d < |s.ring| && s.ring[d].pid == p && Runnable(s.ring[d]) && s.ring[d].starvation <= MAX_STARVATION
  }

  /** Steps around the ring after which the entry at place d must have been selected. */
  ghost function Potential(s: Sched, p: nat, d: nat): nat
    requires Waits(s, p, d)
  {
    (MAX_STARVATION - s.ring[d].starvation) * |s.ring| + d
  }

  lemma Product(a: nat, n: nat, m: nat)
    requires m <= n
    ensures a * m <= a * n
  {
  }

  lemma {:induction false} SkipPotential(s: Sched, p: nat, d: nat) returns (e: nat)
    requires SomeRunnable(s.ring) && Waits(s, p, d)
    ensures Waits(Skip(s), p, e) && Potential(Skip(s), p, e) <= Potential(s, p, d)
    decreases Distance(s.ring)
  {
    if Runnable(s.ring[0]) {
      e := d;
    } else {
      PassOverFacts(s);
      var t := PassOver(s);
      assert t.ring[d - 1] == s.ring[d];
      Product(MAX_STARVATION - s.ring[d].starvation, |s.ring|, |t.ring|);
      e := SkipPotential(t, p, d - 1);
    }
  }

  lemma PassedPotential(s: Sched, p: nat, d: nat) returns (e: nat)
    requires s.ring != [] && !Starved(s) && Waits(s, p, d)
    ensures Waits(Passed(s), p, e) && Potential(Passed(s), p, e) < Potential(s, p, d)
  {
    var r := s.ring[0 := Starve(s.ring[0])];
    if d == 0 {
      e := |s.ring| - 1;
      assert Passed(s).ring[e] == Starve(s.ring[0]);
      var a := MAX_STARVATION - s.ring[0].starvation;
      assert (a - 1) * |s.ring| == a * |s.ring| - |s.ring|;
    } else {
      e := d - 1;
      assert Passed(s).ring[e] == r[d] == s.ring[d];
    }
  }

  /** While the scheduler selects others, the potential of a waiting process does not grow. */
  lemma {:induction false} SetNextPotential(s: Sched, p: nat, d: nat) returns (e: nat)
    requires SomeRunnable(s.ring) && Waits(s, p, d)
    ensures Waits(SetNext(s), p, e)
    ensures e == 0 || Potential(SetNext(s), p, e) <= Potential(s, p, d)
    decreases TotalSlack(s.ring)
  {
    var c := SkipPotential(s, p, d);
    var r := Refresh(Skip(s));
    assert Waits(r, p, c) && Potential(r, p, c) == Potential(Skip(s), p, c);
    if Matches(r) || Starved(r) {
      e := c;
    } else {
      PassedFacts(r);
      var b := PassedPotential(r, p, c);
      e := SetNextPotential(Passed(r), p, b);
    }
  }

  /** The same before a call: the current process first goes to the end of the ring. */
  ghost function Waiting(s: Sched, p: nat, d: nat): nat
    requires Waits(s, p, d)
  {
    if d == 0 then Potential(s, p, d) + |s.ring| else Potential(s, p, d)
  }

  lemma SwitchPotential(s: Sched, p: nat, d: nat) returns (e: nat)
    requires SomeRunnable(s.ring) && Waits(s, p, d)
    ensures Waits(Switch(s), p, e)
    ensures e == 0 || Waiting(Switch(s), p, e) < Waiting(s, p, d)
  {
    ExpireKeepsRunnable(s);
    var x := Expire(s);
    var c := if d == 0 then |s.ring| - 1 else d - 1;
    assert d > 0 ==> x.ring[c] == s.ring[d];
    e := SetNextPotential(x, p, c);
  }

  /** Nobody joined and process p was left alone; anything else may have changed. */
  ghost predicate Undisturbed(s: Sched, t: Sched, p: nat) {
    && |t.ring| == |s.ring|
    && forall d | 0 <= d < |s.ring| ::
         t.ring[d].pid == s.ring[d].pid
         && (s.ring[d].pid == p ==> Runnable(t.ring[d]) && t.ring[d].starvation == s.ring[d].starvation)
  }

  /**
   * The states in which a switch is requested, one after the other.  Between two of
   * them priorities, other statuses, counters and quanta may change at will.
   */
  ghost predicate Requests(trace: seq<Sched>, p: nat) {
    && (forall i | 0 <= i < |trace| :: SomeRunnable(trace[i].ring))
    && forall i | 0 <= i < |trace| - 1 :: Undisturbed(Switch(trace[i]), trace[i + 1], p)
  }

  lemma WaitingPositive(s: Sched, p: nat, d: nat)
    requires Waits(s, p, d)
    ensures Waiting(s, p, d) >= 1
  {
  }

  lemma UndisturbedWaiting(s: Sched, t: Sched, p: nat, d: nat)
    requires Waits(s, p, d) && Undisturbed(s, t, p)
    ensures Waits(t, p, d) && Waiting(t, p, d) == Waiting(s, p, d)
  {
  }

  /** After at most w switches the process at place d is current. */
  ghost predicate WaitsAtMost(s: Sched, p: nat, d: nat, w: nat) {
    Waits(s, p, d) && Waiting(s, p, d) <= w
  }

  /** Every switch selects the waiting process or shortens its wait. */
  lemma SwitchShortensWait(s: Sched, p: nat, d: nat, w: nat) returns (e: nat)
    requires SomeRunnable(s.ring) && WaitsAtMost(s, p, d, w)
    ensures w >= 1 && (e == 0 ==> Switch(s).ring[0].pid == p)
    ensures e > 0 ==> w >= 2 && WaitsAtMost(Switch(s), p, e, w - 1)
  {
    WaitingPositive(s, p, d);
    e := SwitchPotential(s, p, d);
    WaitingPositive(Switch(s), p, e);
  }

  lemma UndisturbedWait(s: Sched, t: Sched, p: nat, d: nat, w: nat)
    requires WaitsAtMost(s, p, d, w) && Undisturbed(s, t, p)
    ensures WaitsAtMost(t, p, d, w)
  {
    UndisturbedWaiting(s, t, p, d);
  }

  lemma RequestsTail(trace: seq<Sched>, p: nat)
    requires Requests(trace, p) && trace != []
    ensures Requests(trace[1..], p)
    ensures |trace| > 1 ==> Undisturbed(Switch(trace[0]), trace[1..][0], p)
  {
    var rest := trace[1..];
    forall i | 0 <= i < |rest| - 1 ensures Undisturbed(Switch(rest[i]), rest[i + 1], p) {
      assert rest[i] == trace[i + 1] && rest[i + 1] == trace[i + 1 + 1];
      assert Undisturbed(Switch(trace[i + 1]), trace[i + 1 + 1], p);
    }
    assert |trace| > 1 ==> Undisturbed(Switch(trace[0]), trace[0 + 1], p);
  }

  lemma {:induction false} WaitingEnds(trace: seq<Sched>, p: nat, d: nat, w: nat) returns (i: nat)
    requires Requests(trace, p) && w <= |trace| && trace != [] && WaitsAtMost(trace[0], p, d, w)
    ensures i < w && i < |trace| && Switch(trace[i]).ring[0].pid == p
    decreases |trace|
  {
    var e := SwitchShortensWait(trace[0], p, d, w);
    if e == 0 {
      i := 0;
    } else {
      RequestsTail(trace, p);
      UndisturbedWait(Switch(trace[0]), trace[1..][0], p, e, w - 1);
      var j := WaitingEnds(trace[1..], p, e, w - 1);
      i := j + 1;
    }
  }

  lemma StartOfWait(s: Sched, p: nat, d: nat)
    requires d < |s.ring| && s.ring[d].pid == p && Runnable(s.ring[d]) && s.ring[d].starvation <= MAX_STARVATION
    ensures WaitsAtMost(s, p, d, 51 * |s.ring|)
  {
    Product(|s.ring|, MAX_STARVATION, MAX_STARVATION - s.ring[d].starvation);
  }

  /**
   * Bounded waiting: a process that stays ready becomes current within 51 * N
   * quantum-expired calls, for a ring of N processes and any priorities.
   */
  lemma BoundedWaiting(trace: seq<Sched>, p: nat, d: nat)
    requires Requests(trace, p) && trace != [] && Waits(trace[0], p, d)
    requires |trace| >= 51 * |trace[0].ring|
    ensures exists i | 0 <= i < 51 * |trace[0].ring| :: Switch(trace[i]).ring[0].pid == p
  {
    var s := trace[0];
    StartOfWait(s, p, d);
    var i := WaitingEnds(trace, p, d, 51 * |s.ring|);
  }
}
