/**
 * Bounded waiting over the runs of SchedulerRuns: ticks, yields and kills all
 * bring a ready process nearer to its turn.
 */
module SchedulerWaiting {
  import opened Processes
  import opened SchedulerSpec
  import opened SchedulerTheorems
  import opened SchedulerPids
  import opened SchedulerRuns

  /** The step selects the process that runs next. */
  ghost predicate Selects(y: System, step: Step) {
    match step
    case TickStep => y.s.ring != [] && Expires(y.s)
    case YieldStep => true
    case KillStep => true
    case _ => false
  }

  /** Nobody joins, and process p is neither blocked, deleted nor killed. */
  ghost predicate Spares(y: System, step: Step, p: nat)
    requires Enabled(y, step)
  {
    match step
    case AddStep(_) => false
    case KillStep => y.s.ring[0].pid != p
    case StatusStep(place, status) => y.s.ring[place].pid == p ==> status == Ready
    case _ => true
  }

  ghost predicate SparesAll(y: System, steps: seq<Step>, p: nat)
    decreases |steps|
  {
    steps == []
    || (Enabled(y, steps[0]) && Spares(y, steps[0], p) && SparesAll(Apply(y, steps[0]), steps[1..], p))
  }

  /** How many of the steps select a process. */
  ghost function Selections(y: System, steps: seq<Step>): nat
    decreases |steps|
  {
    if steps == [] || !Enabled(y, steps[0]) then 0
    else (if Selects(y, steps[0]) then 1 else 0) + Selections(Apply(y, steps[0]), steps[1..])
  }

  /** One of the steps selects process p. */
  ghost predicate GetsTurn(y: System, steps: seq<Step>, p: nat)
    decreases |steps|
  {
    && steps != [] && Enabled(y, steps[0])
    && (var z := Apply(y, steps[0]);
        (Selects(y, steps[0]) && z.s.ring != [] && z.s.ring[0].pid == p) || GetsTurn(z, steps[1..], p))
  }

  /** States that agree on everything that a wait depends on. */
  lemma SameWait(s: Sched, t: Sched, p: nat, d: nat, w: nat)
    requires WaitsAtMost(s, p, d, w) && |t.ring| == |s.ring|
    requires t.ring[d].pid == p && Runnable(t.ring[d]) && t.ring[d].starvation == s.ring[d].starvation
    ensures WaitsAtMost(t, p, d, w)
  {
  }

  lemma SwitchStep(s: Sched, t: Sched, p: nat, d: nat, w: nat) returns (e: nat)
    requires SomeRunnable(t.ring) && WaitsAtMost(s, p, d, w) && |t.ring| == |s.ring|
    requires t.ring[d].pid == p && Runnable(t.ring[d]) && t.ring[d].starvation == s.ring[d].starvation
    ensures w >= 1 && (e == 0 ==> Switch(t).ring[0].pid == p)
    ensures e > 0 ==> w >= 2 && WaitsAtMost(Switch(t), p, e, w - 1)
  {
    SameWait(s, t, p, d, w);
    e := SwitchShortensWait(t, p, d, w);
  }

  /** The ring without its first entry is shorter for everybody else. */
  lemma KillStepShortens(s: Sched, p: nat, d: nat, w: nat) returns (e: nat)
    requires |s.ring| >= 2 && SomeRunnable(s.ring[1..]) && WaitsAtMost(s, p, d, w) && s.ring[0].pid != p
    ensures w >= 1 && (e == 0 ==> Kill(s).ring[0].pid == p)
    ensures e > 0 ==> w >= 2 && WaitsAtMost(Kill(s), p, e, w - 1)
  {
    var k := s.(ring := s.ring[1..], processNumber := s.processNumber - 1);
    assert k.ring[d - 1] == s.ring[d];
    Product(MAX_STARVATION - s.ring[d].starvation, |s.ring|, |k.ring|);
    e := SetNextPotential(k, p, d - 1);
    WaitingPositive(s, p, d);
    if e > 0 {
      assert Kill(s).ring[e] == SetNext(k).ring[e];
      assert Potential(Kill(s), p, e) == Potential(SetNext(k), p, e) <= Potential(k, p, d - 1) < Potential(s, p, d);
      WaitingPositive(Kill(s), p, e);
    }
  }

  lemma StepShortens(y: System, step: Step, p: nat, d: nat, w: nat) returns (e: nat)
    requires Enabled(y, step) && Spares(y, step, p) && WaitsAtMost(y.s, p, d, w)
    ensures if Selects(y, step) then
              && w >= 1 && Apply(y, step).s.ring != []
              && (e == 0 ==> Apply(y, step).s.ring[0].pid == p)
              && (e > 0 ==> w >= 2 && WaitsAtMost(Apply(y, step).s, p, e, w - 1))
            else
              WaitsAtMost(Apply(y, step).s, p, e, w)
  {
    var s, t := y.s, Apply(y, step).s;
    e := d;
    match step {
      case TickStep =>
        if Expires(s) {
          e := SwitchStep(s, UseQuantum(s), p, d, w);
        } else {
          SameWait(s, t, p, d, w);
        }
      case YieldStep =>
        YieldSwitches(s);
        e := SwitchStep(s, UseQuantum(Donate(s)), p, d, w);
      case KillStep => e := KillStepShortens(s, p, d, w);
      case StatusStep(_, _) => SameWait(s, t, p, d, w);
      case PriorityStep(_, _) => SameWait(s, t, p, d, w);
    }
  }

  lemma {:induction false} WaitEndsInRun(y: System, steps: seq<Step>, z: System, p: nat, d: nat, w: nat)
    requires Runs(y, steps, z) && SparesAll(y, steps, p) && WaitsAtMost(y.s, p, d, w)
    requires Selections(y, steps) >= w
    ensures GetsTurn(y, steps, p)
    decreases |steps|
  {
    WaitingPositive(y.s, p, d);
    var step := steps[0];
    var e := StepShortens(y, step, p, d, w);
    if !Selects(y, step) {
      WaitEndsInRun(Apply(y, step), steps[1..], z, p, e, w);
    } else if e > 0 {
      WaitEndsInRun(Apply(y, step), steps[1..], z, p, e, w - 1);
    }
  }

  /**
   * Bounded waiting over runs: take any run from the start to a state in which process p can run,
   * with N nodes in the ring, and let it go on without additions and with p neither blocked, deleted
   * nor killed.  By the time that 51 * N switches, yields or kills have happened p has been selected,
   * whatever has become of the priorities, the statuses and the number of the others.
   */
  lemma BoundedWaitingInRuns(before: seq<Step>, y: System, steps: seq<Step>, z: System, p: nat, d: nat)
    requires Runs(Initial(), before, y) && Runs(y, steps, z) && SparesAll(y, steps, p)
    requires d < |y.s.ring| && y.s.ring[d].pid == p && Runnable(y.s.ring[d])
    requires Selections(y, steps) >= 51 * |y.s.ring|
    ensures GetsTurn(y, steps, p)
  {
    RunKeepsInv(Initial(), before, y);
    hide Slots;
    hide Accounts;
    hide Runs;
    hide SparesAll;
    hide Selections;
    hide GetsTurn;
    StartOfWait(y.s, p, d);
    WaitEndsInRun(y, steps, z, p, d, 51 * |y.s.ring|);
  }
}
