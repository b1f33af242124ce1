/**
 * The round-robin scheduler on values.  The ring is a sequence that starts with
 * the current process; its last entry is the predecessor ("prev").
 */
module SchedulerSpec {
  import opened Processes

  const QUANTUM: int := 1
  const MAX_STARVATION: nat := 50
  const LOWEST_PRIORITY: int := 3

  datatype Entry = Entry(pid: nat, status: Status, priority: nat, starvation: nat, quantum: int)

  /** processNumber is the count kept by the process table. */
  datatype Sched = Sched(ring: seq<Entry>, counter: int, priorityHandling: int, processes: int, processNumber: int)

  predicate Runnable(e: Entry) {
    e.status != Blocked && e.status != Deleted
  }

  predicate SomeRunnable(ring: seq<Entry>) {
    exists i | 0 <= i < |ring| :: Runnable(ring[i])
  }

  function Rotate<T>(ring: seq<T>): (r: seq<T>)
    requires ring != []
    ensures |r| == |ring|
  {
    ring[1..] + [ring[0]]
  }

  /** Number of entries before the first runnable one. */
  ghost function Distance(ring: seq<Entry>): (d: nat)
    requires SomeRunnable(ring)
    ensures d < |ring| && Runnable(ring[d]) && forall i | 0 <= i < d :: !Runnable(ring[i])
  {
    if Runnable(ring[0]) then 0 else
      assert SomeRunnable(ring[1..]) by {
        var i :| 0 <= i < |ring| && Runnable(ring[i]);
        assert ring[1..][i - 1] == ring[i];
      }
      Distance(ring[1..]) + 1
  }

  /** How often the entry can still be passed over before it must be selected. */
  ghost function Slack(e: Entry): nat {
    if Runnable(e) && e.starvation < MAX_STARVATION then MAX_STARVATION - e.starvation else 0
  }

  ghost function TotalSlack(ring: seq<Entry>): nat {
    if ring == [] then 0 else Slack(ring[0]) + TotalSlack(ring[1..])
  }

  lemma {:induction false} TotalSlackAppend(ring: seq<Entry>, e: Entry)
    ensures TotalSlack(ring + [e]) == TotalSlack(ring) + Slack(e)
  {
    if ring != [] {
      TotalSlackAppend(ring[1..], e);
      assert (ring + [e])[1..] == ring[1..] + [e];
    }
  }

  // ---------------------------------------------------------------- steps

  /** The current process is not runnable: it is passed over, and dropped if it is deleted. */
  function PassOver(s: Sched): Sched
    requires s.ring != []
  {
    if s.ring[0].status == Deleted then
      s.(ring := s.ring[1..], processNumber := s.processNumber - 1)
    else
      s.(ring := Rotate(s.ring))
  }

  lemma PassOverFacts(s: Sched)
    requires SomeRunnable(s.ring) && !Runnable(s.ring[0])
    ensures SomeRunnable(PassOver(s).ring)
    ensures Distance(PassOver(s).ring) == Distance(s.ring) - 1
    ensures TotalSlack(PassOver(s).ring) == TotalSlack(s.ring)
  {
    var r := PassOver(s).ring;
    TotalSlackAppend(s.ring[1..], s.ring[0]);
    var d := Distance(s.ring);
    assert r[d - 1] == s.ring[d];
    forall i | 0 <= i < d - 1 ensures !Runnable(r[i]) {
      assert r[i] == s.ring[i + 1];
    }
    var e := Distance(r);
    assert e == d - 1;
  }

  /** The loop of "setNextCurrent": pass over to the first runnable process. */
  ghost function Skip(s: Sched): (t: Sched)
    requires SomeRunnable(s.ring)
    ensures t.ring != [] && Runnable(t.ring[0]) && SomeRunnable(t.ring)
    ensures TotalSlack(t.ring) == TotalSlack(s.ring)
    decreases Distance(s.ring)
  {
    if Runnable(s.ring[0]) then s else
      PassOverFacts(s);
      Skip(PassOver(s))
  }

  /** The state after n rounds of that loop, or where it finds a process that can run or no node at all. */
  ghost function Rounds(s: Sched, n: nat): Sched
    decreases n
  {
    if n == 0 || s.ring == [] || Runnable(s.ring[0]) then s else Rounds(PassOver(s), n - 1)
  }

  lemma PassOverStuck(s: Sched)
    requires s.ring != [] && !SomeRunnable(s.ring)
    ensures !SomeRunnable(PassOver(s).ring)
  {
    var r := PassOver(s).ring;
    forall i | 0 <= i < |r| ensures !Runnable(r[i]) {
      assert r[i] in s.ring;
    }
  }

  lemma {:induction false} RoundsStuck(s: Sched, n: nat)
    requires !SomeRunnable(s.ring)
    ensures !SomeRunnable(Rounds(s, n).ring)
    decreases n
  {
    if n > 0 && s.ring != [] && !Runnable(s.ring[0]) {
      PassOverStuck(s);
      RoundsStuck(PassOver(s), n - 1);
    }
  }

  lemma {:induction false} RoundsReach(s: Sched) returns (n: nat)
    requires SomeRunnable(s.ring)
    ensures Rounds(s, n) == Skip(s)
    decreases Distance(s.ring)
  {
    if Runnable(s.ring[0]) {
      n := 0;
    } else {
      PassOverFacts(s);
      var m := RoundsReach(PassOver(s));
      n := m + 1;
    }
  }

  /** The loop of "setNextCurrent" comes to a process that can run exactly when there is one. */
  lemma SelectionEndsIff(s: Sched)
    ensures SomeRunnable(s.ring) <==> exists n :: Rounds(s, n).ring != [] && Runnable(Rounds(s, n).ring[0])
  {
    if SomeRunnable(s.ring) {
      var n := RoundsReach(s);
      assert Rounds(s, n).ring != [];
    }
    forall n | Rounds(s, n).ring != [] && Runnable(Rounds(s, n).ring[0]) ensures SomeRunnable(s.ring) {
      if !SomeRunnable(s.ring) {
        RoundsStuck(s, n);
      }
    }
  }

  /** A change in the number of processes restarts the priorities. */
  function Refresh(s: Sched): Sched {
    if s.processes != s.processNumber then s.(processes := s.processNumber, priorityHandling := 1) else s
  }

  /** One more process has been handled without a match of priorities. */
  function Count(s: Sched): Sched {
    var c := s.counter + 1;
    if s.processes <= c && s.priorityHandling != LOWEST_PRIORITY then
      s.(priorityHandling := s.priorityHandling + 1, counter := 0)
    else
      s.(counter := c)
  }

  function Starve(e: Entry): Entry {
    if e.starvation + 1 <= MAX_STARVATION then e.(starvation := e.starvation + 1) else e.(starvation := 0)
  }

  /** The current process matches the priority now served. */
  predicate Matches(s: Sched)
    requires s.ring != []
  {
    s.ring[0].priority == s.priorityHandling
  }

  /** The current process has already been passed over as often as allowed. */
  predicate Starved(s: Sched)
    requires s.ring != []
  {
    s.ring[0].starvation + 1 > MAX_STARVATION
  }

  function Passed(s: Sched): Sched
    requires s.ring != []
  {
    Count(s.(ring := Rotate(s.ring[0 := Starve(s.ring[0])])))
  }

  function Chosen(s: Sched): Sched
    requires s.ring != []
  {
    if Matches(s) then s.(counter := 0) else Count(s.(ring := s.ring[0 := Starve(s.ring[0])]))
  }

  lemma PassedFacts(s: Sched)
    requires s.ring != [] && Runnable(s.ring[0]) && !Starved(s)
    ensures SomeRunnable(Passed(s).ring)
    ensures TotalSlack(Passed(s).ring) < TotalSlack(s.ring)
  {
    var e := Starve(s.ring[0]);
    var r := s.ring[0 := e];
    assert r[1..] == s.ring[1..];
    TotalSlackAppend(r[1..], e);
    assert Passed(s).ring[|r| - 1] == e;
  }

  /** "setNextCurrent" and "handlePriority": the process that runs next, and the ring from it on. */
  ghost function SetNext(s: Sched): (t: Sched)
    requires SomeRunnable(s.ring)
    ensures t.ring != [] && Runnable(t.ring[0])
    decreases TotalSlack(s.ring), 1
  {
    Handle(Skip(s))
  }

  ghost function Handle(s: Sched): (t: Sched)
    requires s.ring != [] && Runnable(s.ring[0]) && SomeRunnable(s.ring)
    ensures t.ring != [] && Runnable(t.ring[0])
    decreases TotalSlack(s.ring), 0
  {
    var r := Refresh(s);
    if Matches(r) || Starved(r) then Chosen(r) else
      PassedFacts(r);
      SetNext(Passed(r))
  }

  /** The quantum of the current process has expired: it goes to the end of the ring. */
  function Expire(s: Sched): (t: Sched)
    requires s.ring != []
    ensures |t.ring| == |s.ring|
  {
    var e := s.ring[0].(quantum := QUANTUM, status := if s.ring[0].status == Running then Ready else s.ring[0].status);
    s.(ring := Rotate(s.ring[0 := e]))
  }

  function MarkRunning(s: Sched): Sched
    requires s.ring != []
  {
    s.(ring := s.ring[0 := s.ring[0].(status := Running)])
  }

  lemma ExpireKeepsRunnable(s: Sched)
    requires SomeRunnable(s.ring)
    ensures SomeRunnable(Expire(s).ring)
  {
    var i :| 0 <= i < |s.ring| && Runnable(s.ring[i]);
    if i == 0 {
      assert Runnable(Expire(s).ring[|s.ring| - 1]);
    } else {
      assert Runnable(Expire(s).ring[i - 1]);
    }
  }

  /** "nextProcess" once the quantum is used up. */
  ghost function Switch(s: Sched): (t: Sched)
    requires SomeRunnable(s.ring)
    ensures t.ring != [] && t.ring[0].status == Running
  {
    ExpireKeepsRunnable(s);
    MarkRunning(SetNext(Expire(s)))
  }

  /** Entries whose statuses agree have the same runnable processes. */
  lemma SameStatuses(r: seq<Entry>, q: seq<Entry>)
    requires |r| == |q| && SomeRunnable(r)
    requires forall i | 0 <= i < |r| :: r[i].status == q[i].status
    ensures SomeRunnable(q)
  {
    var i :| 0 <= i < |r| && Runnable(r[i]);
    assert Runnable(q[i]);
  }

  /** "decreaseQuantum" */
  ghost function UseQuantum(s: Sched): (t: Sched)
    requires s.ring != []
    ensures |t.ring| == |s.ring| && (SomeRunnable(s.ring) ==> SomeRunnable(t.ring))
  {
    var t := s.(ring := s.ring[0 := s.ring[0].(quantum := s.ring[0].quantum - 1)]);
    assert SomeRunnable(s.ring) ==> SomeRunnable(t.ring) by {
      if SomeRunnable(s.ring) {
        SameStatuses(s.ring, t.ring);
      }
    }
    t
  }

  /** The tick that comes next uses up the quantum of the current process. */
  predicate Expires(s: Sched)
    requires s.ring != []
  {
    s.ring[0].quantum <= 1
  }

  /** A tick that must switch needs a process to switch to; without one the code loops (SelectionEndsIff). */
  ghost predicate TickEnds(s: Sched) {
    s.ring != [] && Expires(s) ==> SomeRunnable(s.ring)
  }

  /** "nextProcess": one tick. */
  ghost function Tick(s: Sched): Sched
    requires TickEnds(s)
  {
    if s.ring == [] then s
    else
      var t := UseQuantum(s);
      if Expires(s) then Switch(t) else t
  }

  /** The process after the current one gets one more quantum. */
  function DonateOne(s: Sched): Sched
    requires s.ring != []
  {
    var d := if |s.ring| > 1 then 1 else 0;
    s.(ring := s.ring[d := s.ring[d].(quantum := s.ring[d].quantum + 1)])
  }

  /** "yieldProcess", up to the interrupt: the current process gives up its quantum. */
  ghost function Donate(s: Sched): (t: Sched)
    requires SomeRunnable(s.ring)
    ensures SomeRunnable(t.ring)
  {
    var t := DonateOne(s);
    var u := t.(ring := t.ring[0 := t.ring[0].(quantum := 0)]);
    SameStatuses(s.ring, u.ring);
    u
  }

  /** "insertProcess": a process is counted if the table has a free slot for it. */
  function Insert(s: Sched): Sched {
    if s.processNumber < MAX_PROCESSES then s.(processNumber := s.processNumber + 1) else s
  }

  /** "addProcess": a new node after the current one. */
  function Add(s: Sched, e: Entry): Sched {
    var n := e.(quantum := QUANTUM);
    if s.ring == [] then s.(ring := [n]) else s.(ring := [s.ring[0], n] + s.ring[1..])
  }

  /** "killProcess": the current process leaves the ring. */
  ghost function Kill(s: Sched): (t: Sched)
    requires |s.ring| >= 2 && SomeRunnable(s.ring[1..])
    ensures t.ring != [] && Runnable(t.ring[0])
  {
    var t := SetNext(s.(ring := s.ring[1..], processNumber := s.processNumber - 1));
    t.(ring := t.ring[0 := t.ring[0].(quantum := t.ring[0].quantum + 1)])
  }
}
