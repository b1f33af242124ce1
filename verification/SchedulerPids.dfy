/**
 * Process numbers in the ring: a number is a slot of the process table, which the
 * scheduler frees when it removes a node, so no two nodes share one.
 */
module SchedulerPids {
  import opened Processes
  import opened SchedulerSpec

  /** How many nodes have the process number. */
  ghost function Occurs(ring: seq<Entry>, pid: nat): nat {
    if ring == [] then 0 else (if ring[0].pid == pid then 1 else 0) + Occurs(ring[1..], pid)
  }

  /** Every node holds a slot of the table of its own. */
  ghost predicate Slots(ring: seq<Entry>) {
    forall pid: nat :: Occurs(ring, pid) <= if pid < MAX_PROCESSES then 1 else 0
  }

  ghost predicate Vacant(ring: seq<Entry>, pid: nat) {
    Occurs(ring, pid) == 0
  }

  /** "insertProcess" takes the first slot that is free. */
  ghost predicate FirstFree(ring: seq<Entry>, pid: nat) {
    pid < MAX_PROCESSES && Vacant(ring, pid) && forall q: nat | q < pid :: !Vacant(ring, q)
  }

  lemma {:induction false} OccursAppend(a: seq<Entry>, b: seq<Entry>, pid: nat)
    ensures Occurs(a + b, pid) == Occurs(a, pid) + Occurs(b, pid)
  {
    if a == [] {
      assert a + b == b;
    } else {
      OccursAppend(a[1..], b, pid);
      assert (a + b)[1..] == a[1..] + b;
    }
  }

  lemma {:induction false} OccursSame(r: seq<Entry>, q: seq<Entry>, pid: nat)
    requires |r| == |q| && forall i | 0 <= i < |r| :: r[i].pid == q[i].pid
    ensures Occurs(r, pid) == Occurs(q, pid)
  {
    if r != [] {
      OccursSame(r[1..], q[1..], pid);
    }
  }

  /** Moving the first entry to the end, whatever else changes in it. */
  lemma OccursTurned(ring: seq<Entry>, e: Entry, pid: nat)
    requires ring != [] && e.pid == ring[0].pid
    ensures Occurs(ring[1..] + [e], pid) == Occurs(ring, pid)
  {
    OccursAppend(ring[1..], [e], pid);
    assert [e][1..] == [];
  }

  lemma {:induction false} SkipOccurs(s: Sched, pid: nat)
    requires SomeRunnable(s.ring)
    ensures Occurs(Skip(s).ring, pid) <= Occurs(s.ring, pid)
    decreases Distance(s.ring)
  {
    if !Runnable(s.ring[0]) {
      PassOverFacts(s);
      OccursTurned(s.ring, s.ring[0], pid);
      SkipOccurs(PassOver(s), pid);
    }
  }

  lemma {:induction false} SetNextOccurs(s: Sched, pid: nat)
    requires SomeRunnable(s.ring)
    ensures Occurs(SetNext(s).ring, pid) <= Occurs(s.ring, pid)
    decreases TotalSlack(s.ring)
  {
    SkipOccurs(s, pid);
    var r := Refresh(Skip(s));
    if Matches(r) || Starved(r) {
      OccursSame(r.ring, Chosen(r).ring, pid);
      assert SetNext(s) == Chosen(r);
    } else {
      PassedFacts(r);
      var e := Starve(r.ring[0]);
      assert Passed(r).ring == r.ring[1..] + [e];
      OccursTurned(r.ring, e, pid);
      SetNextOccurs(Passed(r), pid);
      assert SetNext(s) == SetNext(Passed(r));
    }
  }

  lemma TickOccurs(s: Sched, pid: nat)
    requires TickEnds(s)
    ensures Occurs(Tick(s).ring, pid) <= Occurs(s.ring, pid)
  {
    if s.ring != [] {
      var t := UseQuantum(s);
      OccursSame(s.ring, t.ring, pid);
      if Expires(s) {
        ExpireKeepsRunnable(t);
        var x := Expire(t);
        assert x.ring == t.ring[1..] + [x.ring[|x.ring| - 1]];
        OccursTurned(t.ring, x.ring[|x.ring| - 1], pid);
        SetNextOccurs(x, pid);
        OccursSame(SetNext(x).ring, Switch(t).ring, pid);
      }
    }
  }

  lemma DonateOccurs(s: Sched, pid: nat)
    requires SomeRunnable(s.ring)
    ensures Occurs(Donate(s).ring, pid) == Occurs(s.ring, pid)
  {
    OccursSame(s.ring, Donate(s).ring, pid);
  }

  lemma KillOccurs(s: Sched, pid: nat)
    requires |s.ring| >= 2 && SomeRunnable(s.ring[1..])
    ensures Occurs(Kill(s).ring, pid) <= Occurs(s.ring, pid)
  {
    var k := s.(ring := s.ring[1..], processNumber := s.processNumber - 1);
    SetNextOccurs(k, pid);
    OccursSame(SetNext(k).ring, Kill(s).ring, pid);
  }

  lemma AddOccurs(s: Sched, e: Entry, pid: nat)
    ensures Occurs(Add(s, e).ring, pid) == Occurs(s.ring, pid) + if e.pid == pid then 1 else 0
  {
    var n := e.(quantum := QUANTUM);
    assert [n][1..] == [];
    if s.ring != [] {
      OccursAppend([s.ring[0]], s.ring[1..], pid);
      OccursAppend([s.ring[0], n], s.ring[1..], pid);
      assert [s.ring[0]] + s.ring[1..] == s.ring;
      assert [s.ring[0], n][1..] == [n];
      assert [s.ring[0]][1..] == [];
    }
  }

  // ---------------------------------------------------------------- the table is full at 32 nodes

  /** Nodes with a process number below n. */
  ghost function Below(ring: seq<Entry>, n: nat): nat {
    if n == 0 then 0 else Below(ring, n - 1) + Occurs(ring, n - 1)
  }

  lemma {:induction false} BelowStep(ring: seq<Entry>, n: nat)
    requires ring != []
    ensures Below(ring, n) == Below(ring[1..], n) + if ring[0].pid < n then 1 else 0
  {
    if n > 0 {
      BelowStep(ring, n - 1);
    }
  }

  lemma {:induction false} BelowIsLength(ring: seq<Entry>, n: nat)
    requires forall pid: nat :: Occurs(ring, pid) > 0 ==> pid < n
    ensures Below(ring, n) == |ring|
    decreases |ring|
  {
    if ring == [] {
      BelowEmpty(n);
    } else {
      assert Occurs(ring, ring[0].pid) > 0;
      forall pid: nat ensures Occurs(ring[1..], pid) > 0 ==> pid < n {
        assert Occurs(ring[1..], pid) > 0 ==> Occurs(ring, pid) > 0;
      }
      BelowIsLength(ring[1..], n);
      BelowStep(ring, n);
    }
  }

  lemma {:induction false} BelowEmpty(n: nat)
    ensures Below([], n) == 0
  {
    if n > 0 {
      BelowEmpty(n - 1);
    }
  }

  /** The first n slots hold at most n nodes; if they hold less, one of them is free. */
  lemma {:induction false} BelowBound(ring: seq<Entry>, n: nat)
    requires forall pid: nat :: Occurs(ring, pid) <= 1
    ensures Below(ring, n) <= n
    ensures Below(ring, n) < n <==> exists pid: nat :: pid < n && Vacant(ring, pid)
  {
    if n > 0 {
      BelowBound(ring, n - 1);
      assert Vacant(ring, n - 1) <==> Below(ring, n) == Below(ring, n - 1);
      if pid: nat :| pid < n && Vacant(ring, pid) {
        assert pid < n - 1 || pid == n - 1;
      }
    }
  }

  lemma {:induction false} LeastFree(ring: seq<Entry>, pid: nat) returns (least: nat)
    requires pid < MAX_PROCESSES && Vacant(ring, pid)
    ensures FirstFree(ring, least)
    decreases pid
  {
    if q: nat :| q < pid && Vacant(ring, q) {
      least := LeastFree(ring, q);
    } else {
      least := pid;
    }
  }

  /** The table has a free slot exactly while the ring has fewer than 32 nodes, and never more. */
  lemma FreeSlotIff(ring: seq<Entry>)
    requires Slots(ring)
    ensures |ring| <= MAX_PROCESSES
    ensures |ring| < MAX_PROCESSES <==> exists pid: nat :: FirstFree(ring, pid)
  {
    BelowIsLength(ring, MAX_PROCESSES);
    BelowBound(ring, MAX_PROCESSES);
    if |ring| < MAX_PROCESSES {
      var pid: nat :| pid < MAX_PROCESSES && Vacant(ring, pid);
      var least := LeastFree(ring, pid);
      assert FirstFree(ring, least);
    }
    if pid: nat :| FirstFree(ring, pid) {
      assert pid < MAX_PROCESSES && Vacant(ring, pid);
    }
  }
}
