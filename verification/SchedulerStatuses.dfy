/**
 * What becomes of the status of every process: only the scheduler makes a process
 * running, only the end of its turn makes it ready again, and a process that is
 * blocked or deleted stays so until somebody else changes its status.
 */
module SchedulerStatuses {
  import opened Processes
  import opened SchedulerSpec
  import opened SchedulerTheorems
  import opened SchedulerPids
  import opened SchedulerRuns
  import opened SchedulerSelection

  // ---------------------------------------------------------------- entries of a turned ring

  /** The entries agree in everything but how often they have been passed over. */
  predicate SameButStarvation(e: Entry, f: Entry) {
    f == e.(starvation := f.starvation)
  }

  lemma {:induction false} WalkedFrom(ring: seq<Entry>, n: nat, j: nat) returns (i: nat)
    requires j < |Walked(ring, n)|
    ensures i < |ring| && SameButStarvation(ring[i], Walked(ring, n)[j])
    decreases |ring|
  {
    if n == 0 || ring == [] {
      i := j;
    } else {
      var gone := ring[0].status == Deleted;
      if !gone && j == 0 {
        i := 0;
      } else {
        var k := WalkedFrom(ring[1..], n, if gone then j else j - 1);
        i := k + 1;
      }
    }
  }

  lemma {:induction false} WalkedTo(ring: seq<Entry>, n: nat, i: nat) returns (j: nat)
    requires i < |ring| && ring[i].status != Deleted
    ensures j < |Walked(ring, n)| && SameButStarvation(ring[i], Walked(ring, n)[j])
    decreases |ring|
  {
    if n == 0 {
      j := i;
    } else if i == 0 {
      j := 0;
    } else {
      var k := WalkedTo(ring[1..], n, i - 1);
      j := if ring[0].status == Deleted then k else k + 1;
    }
  }

  /** Every entry behind the one selected is one of the others before. */
  lemma TurnedFrom(ring: seq<Entry>, d: nat, laps: nat, j: nat) returns (i: nat)
    requires d < |ring| && j < |Turned(ring, d, laps)|
    ensures i < |ring| && i != d && SameButStarvation(ring[i], Turned(ring, d, laps)[j])
  {
    var after := |Walked(ring[d + 1..], laps)|;
    if j < after {
      var k := WalkedFrom(ring[d + 1..], laps, j);
      i := d + 1 + k;
    } else {
      i := WalkedFrom(ring[..d], laps + 1, j - after);
    }
  }

  /** Every other entry that is not deleted stays. */
  lemma TurnedTo(ring: seq<Entry>, d: nat, laps: nat, i: nat) returns (j: nat)
    requires d < |ring| && i < |ring| && i != d && ring[i].status != Deleted
    ensures j < |Turned(ring, d, laps)| && SameButStarvation(ring[i], Turned(ring, d, laps)[j])
  {
    if i > d {
      j := WalkedTo(ring[d + 1..], laps, i - d - 1);
    } else {
      var k := WalkedTo(ring[..d], laps + 1, i);
      j := |Walked(ring[d + 1..], laps)| + k;
    }
  }

  // ---------------------------------------------------------------- one step

  /** What the end of a turn makes of the status. */
  function Ended(status: Status): Status {
    if status == Running then Ready else status
  }

  /** The step ends the turn of the current process. */
  ghost predicate EndsTurn(y: System, step: Step) {
    step == YieldStep || (step == TickStep && y.s.ring != [] && y.s.ring[0].quantum <= 1)
  }

  /** The status that the process at place i of the ring has after the step, if its place is then j. */
  ghost function StatusAfter(y: System, step: Step, i: nat, j: nat): Status
    requires i < |y.s.ring|
  {
    if EndsTurn(y, step) then
      if j == 0 then Running else if i == 0 then Ended(y.s.ring[0].status) else y.s.ring[i].status
    else if step.StatusStep? && step.place == i then step.status
    else y.s.ring[i].status
  }

  lemma {:induction false} TwoOccur(ring: seq<Entry>, i: nat, k: nat)
    requires i < k < |ring| && ring[i].pid == ring[k].pid
    ensures Occurs(ring, ring[i].pid) >= 2
    decreases |ring|
  {
    if i > 0 {
      TwoOccur(ring[1..], i - 1, k - 1);
    } else {
      SomeOccurs(ring[1..], k - 1);
    }
  }

  lemma {:induction false} SomeOccurs(ring: seq<Entry>, i: nat)
    requires i < |ring|
    ensures Occurs(ring, ring[i].pid) >= 1
    decreases |ring|
  {
    if i > 0 {
      SomeOccurs(ring[1..], i - 1);
    }
  }

  /** A process number belongs to one place of the ring. */
  lemma OnePlace(ring: seq<Entry>, i: nat, k: nat)
    requires Slots(ring) && i < |ring| && k < |ring| && ring[i].pid == ring[k].pid
    ensures i == k
  {
    assert Occurs(ring, ring[i].pid) <= 1;
    if i < k {
      TwoOccur(ring, i, k);
    } else if k < i {
      TwoOccur(ring, k, i);
    }
  }

  /** x is the ring after the end of a turn, before the selection. */
  ghost predicate TurnEnded(ring: seq<Entry>, x: seq<Entry>) {
    && ring != [] && |x| == |ring|
    && (forall k: nat | k + 1 < |ring| :: x[k].pid == ring[k + 1].pid && x[k].status == ring[k + 1].status)
    && x[|ring| - 1].pid == ring[0].pid && x[|ring| - 1].status == Ended(ring[0].status)
  }

  lemma FavouredEnded(ring: seq<Entry>)
    requires ring != []
    ensures TurnEnded(ring, Favoured(ring[1..]) + [Outgoing(ring[0])])
  {
  }

  /** Where the entry at place k of such a ring has been before. */
  function PlaceBefore(ring: seq<Entry>, k: nat): nat {
    if k + 1 < |ring| then k + 1 else 0
  }

  /** A turn ends with ring and begins with t, for the process at place d of the ring x in between. */
  ghost predicate TurnBegins(ring: seq<Entry>, x: seq<Entry>, t: seq<Entry>, d: nat, laps: nat) {
    && TurnEnded(ring, x) && d < |x| && Awake(x[d])
    && t != [] && t[0].pid == x[d].pid && t[0].status == Running && t == [t[0]] + Turned(x, d, laps)
  }

  lemma TickTurn(s: Sched) returns (x: seq<Entry>, d: nat, laps: nat)
    requires TickEnds(s) && s.ring != [] && s.ring[0].quantum <= 1
    ensures TurnBegins(s.ring, x, Tick(s).ring, d, laps)
  {
    hide Turned;
    hide Counts;
    hide AtOnce;
    var overdue;
    d, laps, overdue := TickWalks(s);
    x := s.ring[1..] + [Outgoing(s.ring[0])];
  }

  lemma YieldTurn(s: Sched) returns (x: seq<Entry>, d: nat, laps: nat)
    requires SomeRunnable(s.ring)
    ensures TurnBegins(s.ring, x, Tick(Donate(s)).ring, d, laps)
  {
    hide Turned;
    hide Counts;
    hide AtOnce;
    var overdue;
    d, laps, overdue := YieldWalks(s);
    FavouredEnded(s.ring);
    x := Favoured(s.ring[1..]) + [Outgoing(s.ring[0])];
  }

  lemma StatusAfterTurn(ring: seq<Entry>, x: seq<Entry>, t: seq<Entry>, d: nat, laps: nat, i: nat, j: nat)
    requires Slots(ring) && TurnBegins(ring, x, t, d, laps)
    requires i < |ring| && j < |t| && t[j].pid == ring[i].pid
    ensures t[j].status == if j == 0 then Running else if i == 0 then Ended(ring[0].status) else ring[i].status
    ensures j == 0 ==> Awake(ring[i])
  {
    hide Slots;
    if j > 0 {
      var k := TurnedFrom(x, d, laps, j - 1);
      assert t[j] == Turned(x, d, laps)[j - 1];
      hide Turned;
      OnePlace(ring, i, PlaceBefore(ring, k));
    } else {
      hide Turned;
      OnePlace(ring, i, PlaceBefore(ring, d));
    }
  }

  lemma StatusAfterKill(ring: seq<Entry>, t: seq<Entry>, chosen: Entry, d: nat, laps: nat, i: nat, j: nat)
    requires Slots(ring) && d + 1 < |ring| && t == [chosen] + Turned(ring[1..], d, laps)
    requires chosen.pid == ring[d + 1].pid && chosen.status == ring[d + 1].status
    requires i < |ring| && j < |t| && t[j].pid == ring[i].pid
    ensures t[j].status == ring[i].status
  {
    if j > 0 {
      var k := TurnedFrom(ring[1..], d, laps, j - 1);
      assert t[j] == Turned(ring[1..], d, laps)[j - 1];
      hide Turned;
      hide Slots;
      OnePlace(ring, i, k + 1);
    } else {
      OnePlace(ring, i, d + 1);
    }
  }

  /** The process added is a new one. */
  lemma AddedPlace(y: System, pid: nat, i: nat, j: nat)
    requires Inv(y) && Enabled(y, AddStep(pid))
    requires i < |y.s.ring| && j < |Apply(y, AddStep(pid)).s.ring|
    requires Apply(y, AddStep(pid)).s.ring[j].pid == y.s.ring[i].pid
    ensures Apply(y, AddStep(pid)).s.ring[j].status == y.s.ring[i].status
  {
    var ring := y.s.ring;
    SomeOccurs(ring, i);
    var before := if j == 0 then 0 else j - 1;
    if j != 1 {
      OnePlace(ring, i, before);
    }
  }

  /** StepStatus for one step: the status afterwards, and who can have been selected. */
  ghost predicate StatusOk(y: System, step: Step, i: nat, j: nat)
    requires Enabled(y, step) && i < |y.s.ring| && j < |Apply(y, step).s.ring|
  {
    && Apply(y, step).s.ring[j].status == StatusAfter(y, step, i, j)
    && (EndsTurn(y, step) && j == 0 ==> Awake(y.s.ring[i]))
  }

  lemma TickStatus(y: System, i: nat, j: nat)
    requires Slots(y.s.ring) && Enabled(y, TickStep)
    requires i < |y.s.ring| && j < |Tick(y.s).ring| && Tick(y.s).ring[j].pid == y.s.ring[i].pid
    ensures StatusOk(y, TickStep, i, j)
  {
    var ring, t := y.s.ring, Tick(y.s).ring;
    if ring[0].quantum <= 1 {
      var x, d, laps := TickTurn(y.s);
      StatusAfterTurn(ring, x, t, d, laps, i, j);
    } else {
      var d, laps, overdue := TickWalks(y.s);
      OnePlace(ring, i, j);
    }
  }

  lemma YieldStatus(y: System, i: nat, j: nat)
    requires Slots(y.s.ring) && Enabled(y, YieldStep)
    requires i < |y.s.ring| && j < |Tick(Donate(y.s)).ring| && Tick(Donate(y.s)).ring[j].pid == y.s.ring[i].pid
    ensures StatusOk(y, YieldStep, i, j)
  {
    var ring, t := y.s.ring, Tick(Donate(y.s)).ring;
    var x, d, laps := YieldTurn(y.s);
    StatusAfterTurn(ring, x, t, d, laps, i, j);
  }

  lemma KillStatus(y: System, i: nat, j: nat)
    requires Slots(y.s.ring) && Enabled(y, KillStep)
    requires i < |y.s.ring| && j < |Kill(y.s).ring| && Kill(y.s).ring[j].pid == y.s.ring[i].pid
    ensures StatusOk(y, KillStep, i, j)
  {
    var t := Kill(y.s).ring;
    var d, laps, overdue := KillWalks(y.s);
    StatusAfterKill(y.s.ring, t, t[0], d, laps, i, j);
  }

  /**
   * Every step, for every process that is in the ring before and after it: the process selected at the end of a
   * turn was ready or running and is running, the one whose turn ended is ready again if it was running, a
   * change of status hits the process named, and every other status stays.
   */
  lemma StepStatus(y: System, step: Step, i: nat, j: nat)
    requires Inv(y) && Enabled(y, step)
    requires i < |y.s.ring| && j < |Apply(y, step).s.ring| && Apply(y, step).s.ring[j].pid == y.s.ring[i].pid
    ensures Apply(y, step).s.ring[j].status == StatusAfter(y, step, i, j)
    ensures EndsTurn(y, step) && j == 0 ==> y.s.ring[i].status == Ready || y.s.ring[i].status == Running
  {
    hide RingInv;
    hide Slots;
    match step {
      case TickStep => TickStatus(y, i, j);
      case YieldStep => YieldStatus(y, i, j);
      case AddStep(pid) => AddedPlace(y, pid, i, j);
      case KillStep => KillStatus(y, i, j);
      case StatusStep(place, status) => OnePlace(y.s.ring, i, j);
      case PriorityStep(place, priority) => OnePlace(y.s.ring, i, j);
    }
  }

  // ---------------------------------------------------------------- whole runs

  /** The step neither changes the status of process p nor kills it. */
  ghost predicate LeavesAlone(y: System, step: Step, p: nat)
    requires Enabled(y, step)
  {
    match step
    case KillStep => y.s.ring[0].pid != p
    case StatusStep(place, _) => y.s.ring[place].pid != p
    case _ => true
  }

  ghost predicate AllLeaveAlone(y: System, steps: seq<Step>, p: nat)
    decreases |steps|
  {
    steps == []
    || (Enabled(y, steps[0]) && LeavesAlone(y, steps[0], p) && AllLeaveAlone(Apply(y, steps[0]), steps[1..], p))
  }

  /** Process p is in the ring, and blocked. */
  ghost predicate IsBlocked(ring: seq<Entry>, p: nat) {
    exists i :: 0 <= i < |ring| && ring[i].pid == p && ring[i].status == Blocked
  }

  lemma BlockedAfterTurn(ring: seq<Entry>, x: seq<Entry>, t: seq<Entry>, d: nat, laps: nat, i: nat)
    requires TurnBegins(ring, x, t, d, laps) && i < |ring| && ring[i].status == Blocked
    ensures IsBlocked(t, ring[i].pid)
  {
    var c := if i == 0 then |ring| - 1 else i - 1;
    assert x[c].status == Blocked;
    var j := TurnedTo(x, d, laps, c);
    assert t[j + 1] == Turned(x, d, laps)[j];
  }

  lemma BlockedAfterTick(s: Sched, i: nat)
    requires TickEnds(s) && i < |s.ring| && s.ring[i].status == Blocked
    ensures IsBlocked(Tick(s).ring, s.ring[i].pid)
  {
    if s.ring[0].quantum <= 1 {
      var x, d, laps := TickTurn(s);
      BlockedAfterTurn(s.ring, x, Tick(s).ring, d, laps, i);
    } else {
      var d, laps, overdue := TickWalks(s);
      assert Tick(s).ring[i].pid == s.ring[i].pid && Tick(s).ring[i].status == Blocked;
    }
  }

  lemma BlockedAfterKill(s: Sched, i: nat)
    requires |s.ring| >= 2 && SomeRunnable(s.ring[1..]) && 0 < i < |s.ring| && s.ring[i].status == Blocked
    ensures IsBlocked(Kill(s).ring, s.ring[i].pid)
  {
    var d, laps, overdue := KillWalks(s);
    var j := TurnedTo(s.ring[1..], d, laps, i - 1);
    assert Kill(s).ring[j + 1] == Turned(s.ring[1..], d, laps)[j];
  }

  lemma BlockedAfterStep(y: System, step: Step, i: nat)
    requires Enabled(y, step) && i < |y.s.ring| && y.s.ring[i].status == Blocked
    requires LeavesAlone(y, step, y.s.ring[i].pid)
    ensures IsBlocked(Apply(y, step).s.ring, y.s.ring[i].pid)
  {
    var s, ring, t := y.s, y.s.ring, Apply(y, step).s.ring;
    match step {
      case TickStep => BlockedAfterTick(s, i);
      case YieldStep =>
        var x, d, laps := YieldTurn(s);
        BlockedAfterTurn(ring, x, t, d, laps, i);
      case AddStep(pid) => assert t[if i == 0 then 0 else i + 1] == ring[i];
      case KillStep => BlockedAfterKill(s, i);
      case StatusStep(place, _) => assert t[i] == ring[i];
      case PriorityStep(place, _) => assert t[i].pid == ring[i].pid && t[i].status == Blocked;
    }
  }

  /**
   * A blocked process stays in the ring, and blocked, over every run of any length, until somebody changes its
   * status or kills it: no tick, yield, addition, kill or change of another process unblocks it.
   */
  lemma {:induction false} BlockedStaysBlocked(y: System, steps: seq<Step>, z: System, p: nat)
    requires Runs(y, steps, z) && AllLeaveAlone(y, steps, p) && IsBlocked(y.s.ring, p)
    ensures IsBlocked(z.s.ring, p)
    decreases |steps|
  {
    if steps != [] {
      var i :| 0 <= i < |y.s.ring| && y.s.ring[i].pid == p && y.s.ring[i].status == Blocked;
      BlockedAfterStep(y, steps[0], i);
      BlockedStaysBlocked(Apply(y, steps[0]), steps[1..], z, p);
    }
  }

  /** Process p is deleted, or gone. */
  ghost predicate IsDeleted(ring: seq<Entry>, p: nat) {
    forall i | 0 <= i < |ring| && ring[i].pid == p :: ring[i].status == Deleted
  }

  lemma {:induction false} SomePlace(ring: seq<Entry>, p: nat) returns (i: nat)
    requires Occurs(ring, p) >= 1
    ensures i < |ring| && ring[i].pid == p
  {
    if ring[0].pid == p {
      i := 0;
    } else {
      var k := SomePlace(ring[1..], p);
      i := k + 1;
    }
  }

  lemma StepOccurs(y: System, step: Step, p: nat)
    requires Enabled(y, step) && step != AddStep(p)
    ensures Occurs(Apply(y, step).s.ring, p) <= Occurs(y.s.ring, p)
  {
    var s, r := y.s, Apply(y, step).s.ring;
    match step {
      case TickStep => TickOccurs(s, p);
      case YieldStep =>
        DonateOccurs(s, p);
        TickOccurs(Donate(s), p);
      case AddStep(q) => AddOccurs(Insert(s), Created(q), p);
      case KillStep => KillOccurs(s, p);
      case StatusStep(_, _) => OccursSame(s.ring, r, p);
      case PriorityStep(_, _) => OccursSame(s.ring, r, p);
    }
  }

  lemma DeletedAfterStep(y: System, step: Step, p: nat)
    requires Inv(y) && Enabled(y, step) && step != AddStep(p) && IsDeleted(y.s.ring, p)
    ensures IsDeleted(Apply(y, step).s.ring, p)
  {
    hide Inv;
    var r := Apply(y, step).s.ring;
    forall j | 0 <= j < |r| && r[j].pid == p ensures r[j].status == Deleted {
      SomeOccurs(r, j);
      StepOccurs(y, step, p);
      var i := SomePlace(y.s.ring, p);
      StepStatus(y, step, i, j);
    }
  }

  /**
   * A deleted process never runs or waits again: over every run it stays deleted until it is gone, and then it
   * does not come back.
   */
  lemma {:induction false} DeletedStaysDeleted(y: System, steps: seq<Step>, z: System, p: nat)
    requires Inv(y) && Runs(y, steps, z) && IsDeleted(y.s.ring, p) && AddStep(p) !in steps
    ensures IsDeleted(z.s.ring, p)
    decreases |steps|
  {
    if steps != [] {
      StepKeepsInv(y, steps[0]);
      DeletedAfterStep(y, steps[0], p);
      DeletedStaysDeleted(Apply(y, steps[0]), steps[1..], z, p);
    }
  }
}
